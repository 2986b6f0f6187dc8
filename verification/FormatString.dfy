/** The two scanners for format strings, and that they are one. */
module FormatString {
  import opened Digits
  import opened Decimal

  // ---- What a handler sees and answers ----

  datatype Event =
    | Text(s: string)
    | AutoArg
    | IndexArg(index: int)
    | NamedArg(name: string)
    | Field(id: int, pos: nat)   // replacement field without a format spec
    | Specs(id: int, pos: nat)   // format spec starting at pos

  /** An argument id, or how many characters of a format spec were read; or an exception. */
  datatype Reply = Throws | Value(n: nat)

  /** Any handler: what it does next may depend on all it has been told, empty texts aside. */
  type Handler = (seq<Event>, Event) -> Reply

  /** What the handler has been told so far, and whether the scan was cut short by an error. */
  datatype State = State(told: seq<Event>, failed: bool)

  const START := State([], false)

  function Fail(st: State): State { st.(failed := true) }

  function TellText(st: State, t: string): State {
    if t == "" then st else st.(told := st.told + [Text(t)])
  }

  /** Tells the handler something that wants an answer. */
  function Ask(h: Handler, st: State, e: Event): (r: (State, nat))
    ensures !r.0.failed ==> !st.failed
  {
    match h(st.told, e)
    case Throws => (State(st.told + [e], true), 0)
    case Value(n) => (st.(told := st.told + [e]), n)
  }

  // ---- The grammar ----

  predicate IsNameStart(c: char) { 'a' <= c <= 'z' || 'A' <= c <= 'Z' || c == '_' }

  /** The end of the name that starts at i. */
  function NameEnd(s: string, i: nat): (e: nat)
    requires i <= |s|
    ensures i <= e <= |s|
    decreases |s| - i
  {
    if i < |s| && (IsNameStart(s[i]) || IsDigit(s[i])) then NameEnd(s, i + 1) else i
  }

  datatype ArgId = ArgId(st: State, id: nat, next: nat)

  /** The value the digit run stands for; a run that does not fit an int stands for the largest. */
  ghost function IndexValue(s: string, b: nat): int
    requires b < |s|
  {
    var run := s[b..RunEnd(s, b)];
    if |run| <= 10 && Denotes(run) <= INT_MAX then Denotes(run) else INT_MAX
  }

  ghost function ParseArgId(h: Handler, s: string, b: nat, st: State): (r: ArgId)
    requires b < |s|
    ensures b <= r.next <= |s|
  {
    var c := s[b];
    if c == '}' || c == ':' then Told(h, st, AutoArg, b)
    else if IsDigit(c) then
      var next := if c != '0' then RunEnd(s, b) else b + 1;
      if next == |s| || (s[next] != '}' && s[next] != ':') then ArgId(Fail(st), 0, next)
      else Told(h, st, IndexArg(if c != '0' then IndexValue(s, b) else 0), next)
    else if !IsNameStart(c) then ArgId(Fail(st), 0, b)
    else
      var next := NameEnd(s, b + 1);
      Told(h, st, NamedArg(s[b..next]), next)
  }

  function Told(h: Handler, st: State, e: Event, next: nat): ArgId {
    var (st', id) := Ask(h, st, e);
    ArgId(st', id, next)
  }

  datatype FieldEnd = FieldEnd(st: State, next: nat)

  /** A replacement field, its opening brace at i: what the handler is told and where the scan goes on. */
  ghost function ParseField(h: Handler, s: string, i: nat, st: State): (r: FieldEnd)
    requires i < |s|
    ensures i < r.next <= |s|
  {
    var b := i + 1;
    if b == |s| then FieldEnd(Fail(st), |s|)
    else if s[b] == '}' then
      var arg := Told(h, st, AutoArg, b);
      FieldEnd(if arg.st.failed then arg.st else Ask(h, arg.st, Field(arg.id, b)).0, b + 1)
    else if s[b] == '{' then FieldEnd(TellText(st, s[b..b + 1]), b + 1)
    else
      var arg := ParseArgId(h, s, b, st);
      if arg.st.failed then FieldEnd(arg.st, |s|)
      else AfterArgId(h, s, arg)
  }

  /** What follows the argument id: the closing brace or a format spec. */
  function AfterArgId(h: Handler, s: string, arg: ArgId): (r: FieldEnd)
    requires arg.next <= |s|
    ensures r.next == |s| || arg.next < r.next < |s|
  {
    var p := arg.next;
    if p == |s| then FieldEnd(Fail(arg.st), |s|)
    else if s[p] == '}' then FieldEnd(Ask(h, arg.st, Field(arg.id, p)).0, p + 1)
    else if s[p] == ':' then
      var (st', n) := Ask(h, arg.st, Specs(arg.id, p + 1));
      if st'.failed then FieldEnd(st', |s|)
      else if p + 1 + n >= |s| || s[p + 1 + n] != '}' then FieldEnd(Fail(st'), |s|)
      else FieldEnd(st', p + 1 + n + 1)
    else FieldEnd(Fail(arg.st), |s|)
  }

  predicate IsBrace(c: char) { c == '{' || c == '}' }

  /** The first brace from i on, or the end. */
  function NextBrace(s: string, i: nat): (j: nat)
    requires i <= |s|
    ensures i <= j <= |s| && (j < |s| ==> IsBrace(s[j]))
    ensures forall k :: i <= k < j ==> !IsBrace(s[k])
    decreases |s| - i
  {
    if i == |s| || IsBrace(s[i]) then i else NextBrace(s, i + 1)
  }

  /** The meaning of a format string from i on: text runs, doubled closing braces, replacement fields. */
  ghost function Scan(h: Handler, s: string, i: nat, st: State): State
    requires i <= |s|
    decreases |s| - i
  {
    if st.failed then st
    else
      var j := NextBrace(s, i);
      if j == |s| then TellText(st, s[i..])
      else if s[j] == '{' then
        var f := ParseField(h, s, j, TellText(st, s[i..j]));
        Scan(h, s, f.next, f.st)
      else if j + 1 == |s| || s[j + 1] != '}' then Fail(st)
      else Scan(h, s, j + 2, TellText(st, s[i..j + 1]))
  }

  // ---- The code ----

  method ReadName(s: string, b: nat) returns (next: nat)
    requires b < |s|
    ensures next == NameEnd(s, b + 1)
  {
    next := b + 1;
    while next < |s| && (IsNameStart(s[next]) || IsDigit(s[next]))
      invariant b < next <= |s| && NameEnd(s, b + 1) == NameEnd(s, next)
    {
      next := next + 1;
    }
  }

  method ReadArgId(h: Handler, s: string, b: nat, st: State) returns (r: ArgId)
    requires b < |s|
    ensures r == ParseArgId(h, s, b, st)
  {
    var c := s[b];
    if c == '}' || c == ':' {
      return Told(h, st, AutoArg, b);
    }
    if IsDigit(c) {
      var index, next := 0, b;
      if c != '0' {
        index, next := ParseNonnegativeInt(s, b, INT_MAX);
      } else {
        next := next + 1;
      }
      if next == |s| || (s[next] != '}' && s[next] != ':') {
        return ArgId(Fail(st), 0, next);
      }
      return Told(h, st, IndexArg(index), next);
    }
    if !IsNameStart(c) {
      return ArgId(Fail(st), 0, b);
    }
    var next := ReadName(s, b);
    return Told(h, st, NamedArg(s[b..next]), next);
  }

  method ParseReplacementField(h: Handler, s: string, i: nat, st: State) returns (r: FieldEnd)
    requires i < |s|
    ensures r == ParseField(h, s, i, st)
  {
    var b := i + 1;
    if b == |s| {
      return FieldEnd(Fail(st), |s|);
    }
    if s[b] == '}' {
      var arg := Told(h, st, AutoArg, b);
      return FieldEnd(if arg.st.failed then arg.st else Ask(h, arg.st, Field(arg.id, b)).0, b + 1);
    }
    if s[b] == '{' {
      return FieldEnd(TellText(st, s[b..b + 1]), b + 1);
    }
    var arg := ReadArgId(h, s, b, st);
    if arg.st.failed {
      return FieldEnd(arg.st, |s|);
    }
    return AfterArgId(h, s, arg);
  }

  /** The simple loop for short strings: every character is looked at once. */
  method ScanShort(h: Handler, s: string) returns (st: State)
    ensures st == Scan(h, s, 0, START)
  {
    hide Scan, ParseField;
    st := START;
    var begin, p := 0, 0;
    while p != |s|
      invariant 0 <= begin <= p <= |s| && !st.failed
      invariant forall k :: begin <= k < p ==> !IsBrace(s[k])
      invariant Scan(h, s, 0, START) == Scan(h, s, begin, st)
      decreases |s| - p
    {
      var c := s[p];
      p := p + 1;
      if c == '{' {
        ScanField(h, s, begin, p - 1, st);
        st := TellText(st, s[begin..p - 1]);
        var f := ParseReplacementField(h, s, p - 1, st);
        st := f.st;
        begin, p := f.next, f.next;
        if st.failed {
          ScanFailed(h, s, begin, st);
          return;
        }
      } else if c == '}' {
        ScanClosing(h, s, begin, p - 1, st);
        if p == |s| || s[p] != '}' {
          st := Fail(st);
          return;
        }
        st := TellText(st, s[begin..p]);
        p := p + 1;
        begin := p;
      }
    }
    ScanText(h, s, begin, st);
    st := TellText(st, s[begin..]);
  }

  lemma {:induction false} BraceIs(s: string, i: nat, j: nat)
    requires i <= j <= |s| && (j < |s| ==> IsBrace(s[j])) && forall k :: i <= k < j ==> !IsBrace(s[k])
    ensures NextBrace(s, i) == j
    decreases j - i
  {
    if i < j { BraceIs(s, i + 1, j); }
  }

  lemma ScanField(h: Handler, s: string, i: nat, j: nat, st: State)
    requires i <= j < |s| && s[j] == '{' && !st.failed && forall k :: i <= k < j ==> !IsBrace(s[k])
    ensures var f := ParseField(h, s, j, TellText(st, s[i..j]));
            Scan(h, s, i, st) == Scan(h, s, f.next, f.st)
  {
    BraceIs(s, i, j);
  }

  lemma ScanClosing(h: Handler, s: string, i: nat, j: nat, st: State)
    requires i <= j < |s| && s[j] == '}' && !st.failed && forall k :: i <= k < j ==> !IsBrace(s[k])
    ensures Scan(h, s, i, st) ==
              if j + 1 == |s| || s[j + 1] != '}' then Fail(st) else Scan(h, s, j + 2, TellText(st, s[i..j + 1]))
  {
    BraceIs(s, i, j);
  }

  lemma ScanText(h: Handler, s: string, i: nat, st: State)
    requires i <= |s| && !st.failed && forall k :: i <= k < |s| ==> !IsBrace(s[k])
    ensures Scan(h, s, i, st) == TellText(st, s[i..])
  {
    BraceIs(s, i, |s|);
  }

  lemma ScanFailed(h: Handler, s: string, i: nat, st: State)
    requires i <= |s| && st.failed
    ensures Scan(h, s, i, st) == st
  {}

  // ---- The two passes ----

  /** memchr: the first c in s[i..end], if any. */
  method Find(s: string, i: nat, end: nat, c: char) returns (found: bool, p: nat)
    requires i <= end <= |s|
    ensures found ==> i <= p < end && s[p] == c
    ensures forall k :: i <= k < (if found then p else end) ==> s[k] != c
  {
    p := i;
    while p < end
      invariant i <= p <= end && forall k :: i <= k < p ==> s[k] != c
    {
      if s[p] == c {
        return true, p;
      }
      p := p + 1;
    }
    return false, end;
  }

  /** The second pass: text without opening braces, in search of closing ones. */
  method Write(h: Handler, s: string, begin: nat, end: nat, st0: State) returns (st: State)
    requires begin <= end <= |s| && !st0.failed
    requires forall k :: begin <= k < end ==> s[k] != '{'
    requires end == |s| || s[end] == '{'
    ensures if end == |s| then st == Scan(h, s, begin, st0)
            else if st.failed then Scan(h, s, begin, st0) == st
            else
              var f := ParseField(h, s, end, st);
              Scan(h, s, begin, st0) == Scan(h, s, f.next, f.st)
  {
    hide Scan, ParseField;
    st := st0;
    if begin == end {
      if end == |s| {
        ScanText(h, s, begin, st);
      } else {
        ScanField(h, s, begin, end, st);
        assert s[begin..end] == "";
      }
      return;
    }
    var pbegin := begin;
    while true
      invariant begin <= pbegin <= end && !st.failed
      invariant Scan(h, s, begin, st0) == Scan(h, s, pbegin, st)
      decreases end - pbegin
    {
      var found, p := Find(s, pbegin, end, '}');
      if !found {
        if end == |s| {
          ScanText(h, s, pbegin, st);
          assert s[pbegin..end] == s[pbegin..];
        } else {
          ScanField(h, s, pbegin, end, st);
        }
        st := TellText(st, s[pbegin..end]);
        return;
      }
      ScanClosing(h, s, pbegin, p, st);
      p := p + 1;
      if p == end || s[p] != '}' {
        st := Fail(st);
        return;
      }
      st := TellText(st, s[pbegin..p]);
      pbegin := p + 1;
    }
  }

  /** The scanner for long strings: one search for '{', another inside Write for '}'. */
  method ScanLong(h: Handler, s: string) returns (st: State)
    ensures st == Scan(h, s, 0, START)
  {
    hide Scan, ParseField;
    st := START;
    var begin := 0;
    while begin != |s|
      invariant 0 <= begin <= |s| && !st.failed
      invariant Scan(h, s, 0, START) == Scan(h, s, begin, st)
      decreases |s| - begin
    {
      var p := begin;
      if s[begin] != '{' {
        var found;
        found, p := Find(s, begin + 1, |s|, '{');
        if !found {
          st := Write(h, s, begin, |s|, st);
          return;
        }
      }
      st := Write(h, s, begin, p, st);
      if st.failed {
        return;
      }
      var f := ParseReplacementField(h, s, p, st);
      begin, st := f.next, f.st;
      if st.failed {
        ScanFailed(h, s, begin, st);
        return;
      }
    }
    ScanText(h, s, begin, st);
  }

  /** Short strings take one way, long strings the other; the outcome does not depend on which. */
  method ParseFormatString(h: Handler, s: string) returns (st: State)
    ensures st == Scan(h, s, 0, START)
  {
    if |s| < 32 {
      st := ScanShort(h, s);
    } else {
      st := ScanLong(h, s);
    }
  }
}
