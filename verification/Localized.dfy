/** Integers with locale grouping: sized forwards, written backwards. */
module Localized {
  import opened Arith
  import opened BigintClass
  import opened Digits
  import opened Decimal

  /** numpunct's grouping: sizes of digit groups from the right, as chars. */
  const MAX_CHAR := 127

  type groups = g: seq<int> | |g| > 0 && forall k :: 0 <= k < |g| ==> -128 <= g[k] <= MAX_CHAR witness [3]

  /** A group that is not positive or the largest char is unlimited. */
  predicate Bounded(group: int) { 0 < group < MAX_CHAR }

  /** The group to the left of group g; the last one repeats. */
  function NextGroup(gs: groups, g: nat): (r: nat)
    requires g < |gs|
    ensures r < |gs|
  {
    if g + 1 < |gs| then g + 1 else g
  }

  /** Digits in groups from the right, the rightmost group being gs[g]. */
  function Grouped(digits: string, gs: groups, g: nat, sep: char): string
    requires g < |gs|
    decreases |digits|
  {
    if !Bounded(gs[g]) || |digits| <= gs[g] then digits
    else
      var cut := |digits| - gs[g];
      Grouped(digits[..cut], gs, NextGroup(gs, g), sep) + [sep] + digits[cut..]
  }

  /** The number of separators among n digits. */
  function Separators(n: nat, gs: groups, g: nat): nat
    requires g < |gs|
    decreases n
  {
    if !Bounded(gs[g]) || n <= gs[g] then 0 else 1 + Separators(n - gs[g], gs, NextGroup(gs, g))
  }

  lemma {:induction false} GroupedLength(digits: string, gs: groups, g: nat, sep: char)
    requires g < |gs|
    ensures |Grouped(digits, gs, g, sep)| == |digits| + Separators(|digits|, gs, g)
    decreases |digits|
  {
    if Bounded(gs[g]) && |digits| > gs[g] {
      GroupedLength(digits[..|digits| - gs[g]], gs, NextGroup(gs, g), sep);
    }
  }

  /** The string without its separators. */
  function Without(s: string, sep: char): string {
    if s == "" then "" else (if s[0] == sep then "" else [s[0]]) + Without(s[1..], sep)
  }

  lemma {:induction false} WithoutAppend(s: string, t: string, sep: char)
    ensures Without(s + t, sep) == Without(s, sep) + Without(t, sep)
  {
    if s == "" {
      assert s + t == t;
    } else {
      assert (s + t)[1..] == s[1..] + t;
      WithoutAppend(s[1..], t, sep);
    }
  }

  lemma {:induction false} WithoutNone(s: string, sep: char)
    requires sep !in s
    ensures Without(s, sep) == s
  {
    if s != "" { WithoutNone(s[1..], sep); }
  }

  lemma GroupedCut(digits: string, gs: groups, g: nat, sep: char)
    requires g < |gs|
    ensures Grouped(digits, gs, g, sep) ==
              if !Bounded(gs[g]) || |digits| <= gs[g] then digits
              else Grouped(digits[..|digits| - gs[g]], gs, NextGroup(gs, g), sep) + [sep] + digits[|digits| - gs[g]..]
  {}

  /** Dropping the separators leaves the digits. */
  lemma {:induction false} GroupedDigits(digits: string, gs: groups, g: nat, sep: char)
    requires g < |gs| && sep !in digits
    ensures Without(Grouped(digits, gs, g, sep), sep) == digits
    decreases |digits|
  {
    hide Grouped, Without;
    GroupedCut(digits, gs, g, sep);
    if !Bounded(gs[g]) || |digits| <= gs[g] {
      WithoutNone(digits, sep);
    } else {
      var cut := |digits| - gs[g];
      GroupedDigits(digits[..cut], gs, NextGroup(gs, g), sep);
      WithoutJoin(Grouped(digits[..cut], gs, NextGroup(gs, g), sep), digits[cut..], sep);
      WithoutNone(digits[cut..], sep);
      assert digits[..cut] + digits[cut..] == digits;
    }
  }

  lemma WithoutJoin(s: string, t: string, sep: char)
    ensures Without(s + [sep] + t, sep) == Without(s, sep) + Without(t, sep)
  {
    hide Without;
    WithoutAppend(s + [sep], t, sep);
    WithoutAppend(s, [sep], sep);
    WithoutSeparator(sep);
  }

  lemma WithoutSeparator(sep: char)
    ensures Without([sep], sep) == ""
  {
    assert [sep][1..] == "";
  }

  // ---- Where the separators stand ----

  /** The i-th group from the right; the last one repeats. */
  function GroupAt(gs: groups, i: nat): int { gs[if i < |gs| then i else |gs| - 1] }

  /** Of the m groups from the i-th on, each has a limited size. */
  predicate Limited(gs: groups, i: nat, m: nat) { forall k: nat :: i <= k < i + m ==> 0 < GroupAt(gs, k) < 127 }

  /** How many digits these groups have. */
  function GroupSum(gs: groups, i: nat, m: nat): int
    decreases m
  {
    if m == 0 then 0 else GroupAt(gs, i) + GroupSum(gs, i + 1, m - 1)
  }

  /** Some groups from the i-th on have d digits together. */
  ghost predicate GroupsEnd(gs: groups, i: nat, d: int) {
    exists m: nat :: m > 0 && Limited(gs, i, m) && GroupSum(gs, i, m) == d
  }

  /** A separator stands in front of d digits exactly where some leading groups have d digits together. */
  ghost function Spaced(digits: string, gs: groups, i: nat, sep: char): string {
    if |digits| <= 1 then digits
    else [digits[0]] + (if GroupsEnd(gs, i, |digits| - 1) then [sep] else "") + Spaced(digits[1..], gs, i, sep)
  }

  lemma {:induction false} GroupSumPositive(gs: groups, i: nat, m: nat)
    requires Limited(gs, i, m)
    ensures GroupSum(gs, i, m) >= m
    decreases m
  {
    if m > 0 { GroupSumPositive(gs, i + 1, m - 1); }
  }

  lemma LimitedOn(gs: groups, i: nat, m: nat)
    ensures Limited(gs, i, m + 1) <==> 0 < GroupAt(gs, i) < 127 && Limited(gs, i + 1, m)
  {
    hide GroupAt;
    if Limited(gs, i, m + 1) { assert 0 < GroupAt(gs, i) < 127; }
  }

  lemma GroupsEndStep(gs: groups, i: nat, d: int)
    ensures var g := GroupAt(gs, i);
            GroupsEnd(gs, i, d) <==> 0 < g < 127 && (d == g || (d > g && GroupsEnd(gs, i + 1, d - g)))
  {
    hide Limited, GroupAt;
    var g := GroupAt(gs, i);
    if m: nat :| m > 0 && Limited(gs, i, m) && GroupSum(gs, i, m) == d {
      LimitedOn(gs, i, m - 1);
      GroupSumPositive(gs, i + 1, m - 1);
      if m > 1 { assert GroupSum(gs, i + 1, m - 1) == d - g; }
    }
    LimitedOn(gs, i, 0);
    NoGroups(gs, i + 1);
    assert GroupSum(gs, i, 1) == g + GroupSum(gs, i + 1, 0);
    var next, rest := i + 1, d - g;
    if m: nat :| m > 0 && Limited(gs, next, m) && GroupSum(gs, next, m) == rest {
      LimitedOn(gs, i, m);
      assert GroupSum(gs, i, m + 1) == g + GroupSum(gs, i + 1, m);
    }
  }

  lemma NoGroups(gs: groups, i: nat)
    ensures Limited(gs, i, 0) && GroupSum(gs, i, 0) == 0
  {}

  lemma {:induction false} SpacedPlain(digits: string, gs: groups, i: nat, sep: char)
    requires forall d :: 0 < d < |digits| ==> !GroupsEnd(gs, i, d)
    ensures Spaced(digits, gs, i, sep) == digits
    decreases |digits|
  {
    hide GroupsEnd;
    if |digits| > 1 { SpacedPlain(digits[1..], gs, i, sep); }
  }

  /** Cutting off the rightmost group. */
  lemma {:induction false} SpacedCut(digits: string, gs: groups, i: nat, sep: char)
    requires 0 < GroupAt(gs, i) < 127 && |digits| > GroupAt(gs, i)
    ensures var cut := |digits| - GroupAt(gs, i);
            Spaced(digits, gs, i, sep) == Spaced(digits[..cut], gs, i + 1, sep) + [sep] + digits[cut..]
    decreases |digits|
  {
    hide GroupsEnd, GroupAt, Spaced;
    var g := GroupAt(gs, i);
    var cut := |digits| - g;
    GroupsEndStep(gs, i, |digits| - 1);
    SpacedStep(digits, gs, i, sep);
    if cut == 1 {
      forall d | 0 < d < g ensures !GroupsEnd(gs, i, d) { GroupsEndStep(gs, i, d); }
      SpacedPlain(digits[1..], gs, i, sep);
      SpacedOne(digits[..1], gs, i + 1, sep);
      assert digits[..1] == [digits[0]];
    } else {
      SpacedCut(digits[1..], gs, i, sep);
      SpacedStep(digits[..cut], gs, i + 1, sep);
      assert digits[1..][..cut - 1] == digits[..cut][1..] && digits[1..][cut - 1..] == digits[cut..];
    }
  }

  lemma SpacedStep(digits: string, gs: groups, i: nat, sep: char)
    requires |digits| > 1
    ensures Spaced(digits, gs, i, sep) ==
              [digits[0]] + (if GroupsEnd(gs, i, |digits| - 1) then [sep] else "") + Spaced(digits[1..], gs, i, sep)
  {}

  lemma SpacedOne(digits: string, gs: groups, i: nat, sep: char)
    requires |digits| <= 1
    ensures Spaced(digits, gs, i, sep) == digits
  {}

  /** Grouping from the right puts the separators where they belong. */
  lemma {:induction false} GroupedIsSpaced(digits: string, gs: groups, i: nat, sep: char)
    ensures Grouped(digits, gs, if i < |gs| then i else |gs| - 1, sep) == Spaced(digits, gs, i, sep)
    decreases |digits|
  {
    hide GroupsEnd, Spaced, Grouped;
    var g := GroupAt(gs, i);
    GroupedCut(digits, gs, if i < |gs| then i else |gs| - 1, sep);
    if 0 < g < 127 && |digits| > g {
      SpacedCut(digits, gs, i, sep);
      GroupedIsSpaced(digits[..|digits| - g], gs, i + 1, sep);
    } else {
      forall d | 0 < d < |digits| ensures !GroupsEnd(gs, i, d) { GroupsEndStep(gs, i, d); }
      SpacedPlain(digits, gs, i, sep);
    }
  }

  // ---- Sizing ----

  /** With one group repeating, the count is a quotient. */
  lemma {:induction false} RepeatedGroup(n: nat, gs: groups)
    requires n > 0 && Bounded(gs[|gs| - 1])
    ensures Separators(n, gs, |gs| - 1) == (n - 1) / gs[|gs| - 1]
    decreases n
  {
    var b := gs[|gs| - 1];
    if n > b {
      RepeatedGroup(n - b, gs);
      DivStep(n - 1, b);
    } else {
      DivSmall(n - 1, b);
    }
  }

  lemma DivSmall(a: nat, b: nat)
    requires a < b
    ensures a / b == 0
  {}

  lemma DivStep(a: nat, b: nat)
    requires a >= b > 0
    ensures a / b == 1 + (a - b) / b
  {
    var q, r := (a - b) / b, (a - b) % b;
    MulDistrib(q, 1, b);
    DivModUnique(a, b, q + 1, r);
  }

  method SizeForwards(numDigits: nat, gs: groups) returns (size: nat)
    requires numDigits > 0
    ensures size == numDigits + Separators(numDigits, gs, 0)
  {
    hide Separators;
    size := numDigits;
    var n, group := numDigits, 0;
    while group != |gs| && n > gs[group] && gs[group] > 0 && gs[group] != MAX_CHAR
      invariant 0 <= group <= |gs| && n > 0 && size >= numDigits
      invariant group == |gs| ==> Bounded(gs[group - 1])
      invariant numDigits + Separators(numDigits, gs, 0) ==
          size + Separators(n, gs, if group < |gs| then group else |gs| - 1)
      decreases |gs| - group
    {
      SeparatorsStep(n, gs, group);
      size := size + 1;
      n := n - gs[group];
      group := group + 1;
    }
    if group == |gs| {
      RepeatedGroup(n, gs);
      DivNonNegative(n - 1, gs[|gs| - 1]);
      size := size + (n - 1) / gs[|gs| - 1];
    } else {
      NoSeparators(n, gs, group);
    }
  }

  lemma DivNonNegative(a: nat, b: nat)
    requires b > 0
    ensures a / b >= 0
  {}

  lemma SeparatorsStep(n: nat, gs: groups, g: nat)
    requires g < |gs| && Bounded(gs[g]) && n > gs[g]
    ensures Separators(n, gs, g) == 1 + Separators(n - gs[g], gs, NextGroup(gs, g))
  {}

  lemma NoSeparators(n: nat, gs: groups, g: nat)
    requires g < |gs| && !(Bounded(gs[g]) && n > gs[g])
    ensures Separators(n, gs, g) == 0
  {}

  // ---- Writing ----

  /**
   * Digits from i on are written, those from e on together with all separators between and before them as done;
   * those from i to e are the written part of the group gs[g].
   */
  ghost predicate Progress(whole: string, digits: string, gs: groups, g: nat, sep: char, i: nat, e: nat,
      done: string, tail: string) {
    && i <= e <= |digits| && g < |gs|
    && whole == Grouped(digits[..e], gs, g, sep) + done
    && tail == digits[i..e] + done
  }

  lemma ProgressStart(digits: string, gs: groups, sep: char)
    ensures Progress(Grouped(digits, gs, 0, sep), digits, gs, 0, sep, |digits|, |digits|, "", "")
  {
    hide Grouped;
    assert digits[..|digits|] == digits && digits[|digits|..] == "";
    assert Grouped(digits, gs, 0, sep) + "" == Grouped(digits, gs, 0, sep);
  }

  lemma ProgressDigit(whole: string, digits: string, gs: groups, g: nat, sep: char, i: nat, e: nat, done: string,
      tail: string)
    requires i < |digits| && Progress(whole, digits, gs, g, sep, i + 1, e, done, tail)
    ensures Progress(whole, digits, gs, g, sep, i, e, done, [digits[i]] + tail)
  {
    hide Grouped;
    assert digits[i..e] == [digits[i]] + digits[i + 1..e];
  }

  /** A full group is closed with a separator. */
  lemma ProgressSeparator(whole: string, digits: string, gs: groups, g: nat, sep: char, i: nat, e: nat,
      done: string, tail: string)
    requires Progress(whole, digits, gs, g, sep, i, e, done, tail) && i > 0 && Bounded(gs[g]) && e - i == gs[g]
    ensures Progress(whole, digits, gs, NextGroup(gs, g), sep, i, i, [sep] + tail, [sep] + tail)
  {
    assert digits[..e][..i] == digits[..i] && digits[..e][i..] == digits[i..e];
    assert digits[i..i] == "";
  }

  /** There is room for what is not written yet. */
  lemma ProgressRoom(whole: string, digits: string, gs: groups, g: nat, sep: char, i: nat, e: nat, done: string,
      tail: string)
    requires Progress(whole, digits, gs, g, sep, i, e, done, tail)
    ensures i + |tail| <= |whole|
    ensures i > 0 && Bounded(gs[g]) && e - i == gs[g] ==> i + 1 + |tail| <= |whole|
  {
    hide Grouped;
    GroupedLength(digits[..e], gs, g, sep);
  }

  /** When the last group is not full, nothing but its digits is missing. */
  lemma ProgressEnd(whole: string, digits: string, gs: groups, g: nat, sep: char, e: nat, done: string, tail: string)
    requires Progress(whole, digits, gs, g, sep, 0, e, done, tail) && (Bounded(gs[g]) ==> e <= gs[g])
    ensures tail == whole
  {
    assert digits[0..e] == digits[..e];
  }

  /** How much of the current group of g is written, when digits are counted since an earlier group. */
  function Filled(digitIndex: nat, g: nat): (r: nat)
    requires g > 0
    ensures r < g
  {
    digitIndex % g
  }

  lemma FilledNext(d: nat, g: nat)
    requires g > 0
    ensures Filled(0, g) == 0
    ensures Filled(d + 1, g) == if Filled(d, g) + 1 == g then 0 else Filled(d, g) + 1
  {
    var q, r := d / g, d % g;
    DivModUnique(0, g, 0, 0);
    if r + 1 == g {
      MulDistrib(q, 1, g);
      DivModUnique(d + 1, g, q + 1, 0);
    } else {
      DivModUnique(d + 1, g, q, r + 1);
    }
  }

  /** The sign or other one-character prefix; none is 0. */
  function PrefixText(prefix: nat): string {
    if prefix != 0 then [(prefix % 256) as char] else ""
  }

  /** The buffer is filled with tail from q on. */
  ghost predicate FilledFrom(buffer: array<char>, q: nat, tail: string)
    reads buffer
  {
    q <= buffer.Length && buffer[q..] == tail
  }

  /** Writes one more character in front of those written. */
  method Put(buffer: array<char>, p: nat, c: char, ghost tail: string) returns (ghost tail': string)
    requires p < buffer.Length && FilledFrom(buffer, p + 1, tail)
    modifies buffer
    ensures tail' == [c] + tail && FilledFrom(buffer, p, tail')
  {
    buffer[p] := c;
    return [c] + tail;
  }

  lemma FilledStart(buffer: array<char>)
    ensures FilledFrom(buffer, buffer.Length, "")
  {}

  lemma FilledEnd(buffer: array<char>, tail: string)
    requires FilledFrom(buffer, 0, tail)
    ensures buffer[..] == tail
  {
    assert buffer[0..] == buffer[..];
  }

  /** Where the digits begin. */
  function First(prefix: nat): nat { if prefix != 0 then 1 else 0 }

  /** Fills the buffer from its end; the size must be exactly what is written. */
  method WriteBackwards(buffer: array<char>, digits: array<char>, numDigits: nat, prefix: nat, gs: groups, sep: char)
    requires 0 < numDigits <= digits.Length && buffer != digits
    requires buffer.Length == |PrefixText(prefix)| + |Grouped(digits[..numDigits], gs, 0, sep)|
    modifies buffer
    ensures buffer[..] == PrefixText(prefix) + Grouped(digits[..numDigits], gs, 0, sep)
  {
    hide Grouped, Progress, Filled, FilledFrom;
    ghost var ds := digits[..numDigits];
    ghost var whole := Grouped(ds, gs, 0, sep);
    ghost var done, e := "", numDigits;
    ProgressStart(ds, gs, sep);
    FilledNext(0, if Bounded(gs[0]) then gs[0] else 1);
    var size := buffer.Length;
    FilledStart(buffer);
    var digitIndex, group, p := 0, 0, size - 1;
    var i := numDigits - 1;
    ghost var tail := "";
    while i > 0
      invariant 0 <= i < e <= numDigits && 0 <= group < |gs| && -1 <= p < size && digitIndex >= 0
      invariant FilledFrom(buffer, p + 1, tail) && |tail| == size - (p + 1)
      invariant Progress(whole, ds, gs, group, sep, i + 1, e, done, tail)
      invariant Bounded(gs[group]) ==> Filled(digitIndex, gs[group]) == e - (i + 1)
      decreases i
    {
      ProgressRoom(whole, ds, gs, group, sep, i + 1, e, done, tail);
      ProgressDigit(whole, ds, gs, group, sep, i, e, done, tail);
      assert ds[i] == digits[i];
      tail := Put(buffer, p, digits[i], tail);
      p := p - 1;
      var close := false;
      if gs[group] > 0 {
        FilledNext(digitIndex, gs[group]);
        digitIndex := digitIndex + 1;
        close := Filled(digitIndex, gs[group]) == 0 && gs[group] != MAX_CHAR;
      }
      if close {
        ProgressRoom(whole, ds, gs, group, sep, i, e, done, tail);
        ProgressSeparator(whole, ds, gs, group, sep, i, e, done, tail);
        if group + 1 != |gs| {
          digitIndex := 0;
          group := group + 1;
          FilledNext(0, if gs[group] > 0 then gs[group] else 1);
        }
        tail := Put(buffer, p, sep, tail);
        p := p - 1;
        done, e := tail, i;
      }
      i := i - 1;
    }
    ProgressRoom(whole, ds, gs, group, sep, 1, e, done, tail);
    ProgressDigit(whole, ds, gs, group, sep, 0, e, done, tail);
    assert ds[0] == digits[0];
    tail := Put(buffer, p, digits[0], tail);
    ProgressEnd(whole, ds, gs, group, sep, e, done, tail);
    p := p - 1;
    if prefix != 0 {
      tail := Put(buffer, p, (prefix % 256) as char, tail);
    }
    FilledEnd(buffer, tail);
  }

  /** 2^128 has 39 digits. */
  lemma FitsBuffer(value: nat)
    requires value < TWO64 * TWO64
    ensures 1 <= NumDigits(value) <= 39
  {
    hide NumDigits, Pow;
    FourDigits(value);
    NumDigitsBounds(value);
    PowerOf10Entry(20);
    PowAdd(10, 19, 19);
    PowNext(10, 38);
    assert Pow(10, 39) == 10 * (10_000_000_000_000_000_000 * 10_000_000_000_000_000_000);
    if NumDigits(value) >= 40 {
      PowMonotone(10, 39, NumDigits(value) - 1);
    }
  }

  /**
   * The locale's separator and groups; an empty grouping comes with no separator.
   * 128-bit values are counted by division, others by table.
   */
  method WriteIntLocalized(value: nat, wide: bool, prefix: nat, gs: seq<int>, sep: char) returns (ok: bool, out: string)
    requires if wide then value < TWO64 * TWO64 else value < TWO64
    requires forall k :: 0 <= k < |gs| ==> -128 <= gs[k] <= MAX_CHAR
    requires gs == [] ==> sep == '\0'
    ensures ok == (sep != '\0')
    ensures ok ==> |out| > First(prefix) && (prefix != 0 ==> out[0] as int == prefix % 256)
    ensures ok ==> out[First(prefix)..] == Spaced(DecimalString(value), gs, 0, sep)
    ensures ok && !IsDigit(sep) ==> IsNumeral(Without(out[First(prefix)..], sep), value)
  {
    hide Grouped, DecimalString, NumDigits, Separators, Spaced, IsNumeral, Without;
    if sep == '\0' {
      return false, "";
    }
    FitsBuffer(value);
    var numDigits;
    if wide {
      numDigits := CountDigitsFallback(value);
    } else {
      CountDigits64Exact(value);
      numDigits := CountDigits64(value);
    }
    var size := SizeForwards(numDigits, gs);
    var digits := new char[40];
    var begin, end := FormatDecimal(digits, value, numDigits);
    assert digits[..numDigits] == DecimalString(value);
    if prefix != 0 {
      size := size + 1;
    }
    GroupedLength(DecimalString(value), gs, 0, sep);
    var buffer := new char[size];
    WriteBackwards(buffer, digits, numDigits, prefix, gs, sep);
    GroupedIsSpaced(DecimalString(value), gs, 0, sep);
    out := buffer[..];
    assert out[First(prefix)..] == Grouped(DecimalString(value), gs, 0, sep);
    if !IsDigit(sep) { LocalizedReadsBack(value, gs, sep); }
    return true, out;
  }

  /** Digits that denote the value, the first of them not zero unless the value is. */
  ghost predicate IsNumeral(s: string, value: nat) {
    |s| > 0 && AllDigits(s) && Denotes(s) == value && (value > 0 ==> s[0] != '0')
  }

  /** Dropping the separators gives a numeral of the value. */
  lemma LocalizedReadsBack(value: nat, gs: groups, sep: char)
    requires !IsDigit(sep)
    ensures IsNumeral(Without(Grouped(DecimalString(value), gs, 0, sep), sep), value)
  {
    hide Grouped, DecimalString, Denotes;
    DecimalStringDenotes(value);
    GroupedDigits(DecimalString(value), gs, 0, sep);
  }
}
