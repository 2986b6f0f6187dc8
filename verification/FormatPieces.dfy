/** Format strings built from pieces, and that scanning takes them apart again. */
module FormatPieces {
  import opened Digits
  import opened Decimal
  import opened FormatString

  /** An index is its digits, for large ones are not told apart. */
  datatype Arg = Auto | Index(run: string) | Name(n: string)

  /** A character, or a replacement field with or without a format spec. */
  datatype Piece = Lit(c: char) | Hole(arg: Arg) | SpecHole(arg: Arg, spec: string)

  predicate NameFirst(c: char) { 'a' <= c <= 'z' || 'A' <= c <= 'Z' || c == '_' }

  predicate NameChar(c: char) { NameFirst(c) || '0' <= c <= '9' }

  predicate GoodArg(a: Arg) {
    match a
    case Auto => true
    case Index(run) => run != "" && AllDigits(run) && (run[0] == '0' ==> run == "0")
    case Name(n) => n != "" && NameFirst(n[0]) && forall k :: 0 <= k < |n| ==> NameChar(n[k])
  }

  predicate Good(p: Piece) { p.Lit? || GoodArg(p.arg) }

  predicate AllGood(ps: seq<Piece>) { forall k :: 0 <= k < |ps| ==> Good(ps[k]) }

  function PrintArg(a: Arg): string {
    match a
    case Auto => ""
    case Index(run) => run
    case Name(n) => n
  }

  function PrintPiece(p: Piece): string {
    match p
    case Lit(c) => if IsBrace(c) then [c, c] else [c]
    case Hole(a) => "{" + PrintArg(a) + "}"
    case SpecHole(a, spec) => "{" + PrintArg(a) + (":" + spec + "}")
  }

  function Print(ps: seq<Piece>): string {
    if ps == [] then "" else PrintPiece(ps[0]) + Print(ps[1..])
  }

  // ---- What a handler should hear ----

  ghost function ArgEvent(a: Arg): Event
    requires a.Index? ==> AllDigits(a.run)
  {
    match a
    case Auto => AutoArg
    case Index(run) => IndexArg(if |run| <= 10 && Denotes(run) <= 2147483647 then Denotes(run) else 2147483647)
    case Name(n) => NamedArg(n)
  }

  /** A number that fits an int is told as itself. */
  lemma NumberIsTold(i: nat)
    requires i <= 2147483647
    ensures var a := Index(DecimalString(i)); GoodArg(a) && ArgEvent(a) == IndexArg(i)
  {
    DecimalStringDenotes(i);
    ParseInvertsFormat(i, "");
    if i == 0 { OneDigit(i); }
  }

  /** A field printed at position i: the handler is asked for the argument, and its very answer goes with the
      field or its spec. A handler that throws, or does not read exactly the spec, ends the scan. */
  ghost function HearField(h: Handler, st: State, p: Piece, i: nat): State
    requires !p.Lit? && GoodArg(p.arg)
  {
    var event, e := ArgEvent(p.arg), i + 1 + |PrintArg(p.arg)|;
    var told := st.told + [event];
    match h(st.told, event)
    case Throws => State(told, true)
    case Value(id) =>
      if p.Hole? then State(told + [Field(id, e)], h(told, Field(id, e)).Throws?)
      else State(told + [Specs(id, e + 1)], h(told, Specs(id, e + 1)) != Value(|p.spec|))
  }

  /** Text that is not empty is told. */
  function Say(st: State, t: string): State {
    if t == "" then st else State(st.told + [Text(t)], st.failed)
  }

  /** Text is told when a brace ends it: a closing one along with it, an opening one by itself. */
  ghost function Hear(h: Handler, st: State, pending: string, ps: seq<Piece>, i: nat): State
    requires AllGood(ps)
    decreases |ps|
  {
    if st.failed then st
    else if ps == [] then Say(st, pending)
    else
      var p, rest, next := ps[0], ps[1..], i + |PrintPiece(ps[0])|;
      if !p.Lit? then Hear(h, HearField(h, Say(st, pending), p, i), "", rest, next)
      else if p.c == '{' then Hear(h, Say(Say(st, pending), [p.c]), "", rest, next)
      else if p.c == '}' then Hear(h, Say(st, pending + [p.c]), "", rest, next)
      else Hear(h, st, pending + [p.c], rest, next)
  }

  // ---- Argument ids ----

  lemma {:induction false} RunIs(s: string, b: nat, e: nat)
    requires b <= e <= |s| && (e < |s| ==> !IsDigit(s[e])) && forall k :: b <= k < e ==> IsDigit(s[k])
    ensures RunEnd(s, b) == e
    decreases e - b
  {
    if b < e { RunIs(s, b + 1, e); }
  }

  lemma {:induction false} NameIs(s: string, b: nat, e: nat)
    requires b <= e <= |s| && (e < |s| ==> !NameChar(s[e])) && forall k :: b <= k < e ==> NameChar(s[k])
    ensures NameEnd(s, b) == e
    decreases e - b
  {
    if b < e { NameIs(s, b + 1, e); }
  }

  lemma {:induction false} NameOnly(s: string, b: nat)
    requires b <= |s|
    ensures forall k :: b <= k < NameEnd(s, b) ==> NameChar(s[k])
    decreases |s| - b
  {
    if b < |s| && NameChar(s[b]) { NameOnly(s, b + 1); }
  }

  lemma RunStarts(s: string, b: nat)
    requires b < |s| && IsDigit(s[b])
    ensures RunEnd(s, b) > b
  {}

  /** A printed argument id is read back. */
  lemma ArgReadsBack(h: Handler, s: string, b: nat, e: nat, a: Arg, st: State)
    requires GoodArg(a) && b <= e < |s| && s[b..e] == PrintArg(a) && (s[e] == '}' || s[e] == ':')
    ensures ParseArgId(h, s, b, st) == Told(h, st, ArgEvent(a), e)
  {
    hide NameEnd, RunEnd, Denotes, Told;
    assert forall k :: b <= k < e ==> s[k] == s[b..e][k - b];
    match a
    case Auto =>
    case Index(run) =>
      RunIs(s, b, e);
      ZeroDenotes();
    case Name(n) =>
      NameIs(s, b + 1, e);
  }

  lemma ZeroDenotes()
    ensures Denotes("0") == 0 && AllDigits("0")
  {
    DenotesZeros("0");
  }

  /** An argument id that is read was a printed one. */
  lemma ArgWasPrinted(h: Handler, s: string, b: nat, st: State) returns (a: Arg)
    requires b < |s| && !ParseArgId(h, s, b, st).st.failed
    ensures var r := ParseArgId(h, s, b, st);
            && GoodArg(a) && b <= r.next <= |s| && s[b..r.next] == PrintArg(a) && r == Told(h, st, ArgEvent(a), r.next)
            && (r.next == |s| || s[r.next] == '}' || s[r.next] == ':' || a.Name?)
  {
    hide NameEnd, RunEnd, Denotes, Ask;
    var c, r := s[b], ParseArgId(h, s, b, st);
    if c == '}' || c == ':' {
      a := Auto;
    } else if IsDigit(c) {
      a := Index(s[b..r.next]);
      RunStarts(s, b);
      ZeroDenotes();
      assert s[b..r.next][0] == c;
      assert c == '0' ==> s[b..b + 1] == "0";
    } else {
      NameOnly(s, b + 1);
      a := Name(s[b..r.next]);
      assert forall k :: 0 <= k < |a.n| ==> a.n[k] == s[b + k];
    }
  }

  // ---- Fields ----

  /** From at on, s starts with t. */
  predicate Starts(s: string, at: nat, t: string) { at <= |s| && t <= s[at..] }

  lemma StartsAt(s: string, at: nat, t: string, k: nat)
    requires Starts(s, at, t) && k < |t|
    ensures at + k < |s| && s[at + k] == t[k]
  {
    assert s[at..][k] == t[k];
  }

  lemma StartsSlice(s: string, at: nat, t: string, i: nat, j: nat)
    requires Starts(s, at, t) && i <= j <= |t|
    ensures at + j <= |s| && s[at + i..at + j] == t[i..j]
  {
    assert s[at..][i..j] == t[i..j];
  }

  lemma FieldText(p: Piece)
    requires !p.Lit?
    ensures var t, n := PrintPiece(p), 1 + |PrintArg(p.arg)|;
            && n < |t| && t[0] == '{' && t[n] == (if p.Hole? then '}' else ':') && t[1..n] == PrintArg(p.arg)
            && t[|t| - 1] == '}' && |t| == (if p.Hole? then n + 1 else n + 1 + |p.spec| + 1)
  {
    hide PrintArg;
    Bracketed(PrintArg(p.arg), if p.Hole? then "}" else ":" + p.spec + "}");
  }

  lemma Bracketed(x: string, rest: string)
    requires rest != ""
    ensures var t, n := "{" + x + rest, 1 + |x|;
            && n < |t| && t[0] == '{' && t[n] == rest[0] && t[1..n] == x
            && t[|t| - 1] == rest[|rest| - 1] && |t| == n + |rest|
  {}

  lemma FieldShape(s: string, at: nat, p: Piece)
    requires !p.Lit? && Starts(s, at, PrintPiece(p))
    ensures var e, next := at + 1 + |PrintArg(p.arg)|, at + |PrintPiece(p)|;
            && e < next <= |s| && s[at] == '{' && s[at + 1..e] == PrintArg(p.arg)
            && s[e] == (if p.Hole? then '}' else ':') && s[next - 1] == '}'
            && next == (if p.Hole? then e + 1 else e + 1 + |p.spec| + 1)
  {
    hide Starts, PrintArg, PrintPiece;
    var t, n := PrintPiece(p), 1 + |PrintArg(p.arg)|;
    FieldText(p);
    StartsAt(s, at, t, 0);
    StartsAt(s, at, t, n);
    StartsAt(s, at, t, |t| - 1);
    StartsSlice(s, at, t, 1, n);
  }

  lemma NotABrace(s: string, b: nat, e: nat, a: Arg)
    requires GoodArg(a) && b <= e < |s| && s[b..e] == PrintArg(a) && (s[e] == '}' || s[e] == ':')
    ensures s[b] != '{' && (s[b] == '}' ==> a == Auto && b == e)
  {
    if b < e {
      assert s[b] == s[b..e][0];
    }
  }

  /** A field's argument id ends at e; the empty id may be read by either route. */
  lemma FieldIs(h: Handler, s: string, at: nat, e: nat, a: Arg, st: State)
    requires GoodArg(a) && at + 1 <= e < |s| && s[at + 1..e] == PrintArg(a) && (s[e] == '}' || s[e] == ':')
    requires !Ask(h, st, ArgEvent(a)).0.failed
    ensures ParseField(h, s, at, st) == AfterArgId(h, s, Told(h, st, ArgEvent(a), e))
  {
    hide ParseArgId;
    ArgReadsBack(h, s, at + 1, e, a, st);
    NotABrace(s, at + 1, e, a);
  }

  /** A printed field tells the handler what it should hear, and the scan goes on behind it. */
  lemma FieldScans(h: Handler, s: string, at: nat, p: Piece, st: State)
    requires !p.Lit? && Good(p) && Starts(s, at, PrintPiece(p)) && !st.failed && !HearField(h, st, p, at).failed
    ensures at < |s| && s[at] == '{'
    ensures ParseField(h, s, at, st) == FieldEnd(HearField(h, st, p, at), at + |PrintPiece(p)|)
  {
    hide Starts, GoodArg, PrintArg, PrintPiece, ParseField;
    FieldShape(s, at, p);
    FieldIs(h, s, at, at + 1 + |PrintArg(p.arg)|, p.arg, st);
  }

  /** A field that scans was a printed one. */
  lemma FieldWasPrinted(h: Handler, s: string, j: nat, st: State) returns (p: Piece)
    requires j < |s| && s[j] == '{' && !(j + 1 < |s| && s[j + 1] == '{') && !ParseField(h, s, j, st).st.failed
    ensures var f := ParseField(h, s, j, st);
            !p.Lit? && Good(p) && s[j..f.next] == PrintPiece(p) && HearField(h, st, p, j) == f.st
  {
    hide ParseArgId, GoodArg, PrintArg, PrintPiece;
    var b, f := j + 1, ParseField(h, s, j, st);
    if s[b] == '}' {
      AutoIsGood();
      p := Hole(Auto);
      assert s[b..b] == "";
      HoleText(s, j, b, Auto);
    } else {
      var a := ArgWasPrinted(h, s, b, st);
      var e := ParseArgId(h, s, b, st).next;
      if s[e] == '}' {
        p := Hole(a);
        HoleText(s, j, e, a);
      } else {
        p := SpecHole(a, s[e + 1..f.next - 1]);
        SpecText(s, j, e, f.next, a);
      }
    }
  }

  lemma AutoIsGood()
    ensures GoodArg(Auto) && PrintArg(Auto) == ""
  {}

  lemma HoleText(s: string, j: nat, e: nat, a: Arg)
    requires j < e < |s| && s[j] == '{' && s[e] == '}' && s[j + 1..e] == PrintArg(a)
    ensures s[j..e + 1] == PrintPiece(Hole(a))
  {
    hide PrintArg;
    assert s[j..e + 1] == "{" + s[j + 1..e] + "}";
  }

  lemma SpecText(s: string, j: nat, e: nat, next: nat, a: Arg)
    requires j < e && e + 1 < next <= |s| && s[j] == '{' && s[e] == ':' && s[next - 1] == '}' &&
        s[j + 1..e] == PrintArg(a)
    ensures s[j..next] == PrintPiece(SpecHole(a, s[e + 1..next - 1]))
  {
    hide PrintArg;
    assert s[j..next] == ["{"[0]] + s[j + 1..e] + s[e..next];
    assert s[e..next] == ":" + s[e + 1..next - 1] + "}";
  }

  // ---- Printed pieces scan ----

  lemma HearFirst(h: Handler, st: State, pending: string, ps: seq<Piece>, i: nat)
    requires AllGood(ps) && !st.failed && ps != []
    ensures AllGood(ps[1..]) && Good(ps[0]) && (!ps[0].Lit? ==> GoodArg(ps[0].arg))
    ensures var p, next := ps[0], i + |PrintPiece(ps[0])|;
            Hear(h, st, pending, ps, i) ==
              if !p.Lit? then Hear(h, HearField(h, TellText(st, pending), p, i), "", ps[1..], next)
              else if p.c == '{' then Hear(h, TellText(TellText(st, pending), [p.c]), "", ps[1..], next)
              else if p.c == '}' then Hear(h, TellText(st, pending + [p.c]), "", ps[1..], next)
              else Hear(h, st, pending + [p.c], ps[1..], next)
  {
    hide PrintPiece, HearField, GoodArg;
    assert Good(ps[0]);
  }

  lemma HearFailed(h: Handler, st: State, pending: string, ps: seq<Piece>, i: nat)
    requires AllGood(ps) && st.failed
    ensures Hear(h, st, pending, ps, i) == st
  {}

  lemma FirstPiece(s: string, at: nat, ps: seq<Piece>)
    requires at <= |s| && ps != [] && s[at..] == Print(ps)
    ensures Starts(s, at, PrintPiece(ps[0])) && at + |PrintPiece(ps[0])| <= |s|
    ensures s[at + |PrintPiece(ps[0])|..] == Print(ps[1..])
  {
    hide PrintPiece;
    var n := |PrintPiece(ps[0])|;
    assert s[at..][n..] == Print(ps[1..]);
  }

  lemma LitPrints(s: string, at: nat, p: Piece)
    requires p.Lit? && Starts(s, at, PrintPiece(p))
    ensures at < |s| && s[at] == p.c
    ensures if IsBrace(p.c) then |PrintPiece(p)| == 2 && at + 1 < |s| && s[at + 1] == p.c else |PrintPiece(p)| == 1
  {
    StartsAt(s, at, PrintPiece(p), 0);
    if IsBrace(p.c) { StartsAt(s, at, PrintPiece(p), 1); }
  }

  lemma DoubledOpening(h: Handler, s: string, at: nat, st: State)
    requires at + 1 < |s| && s[at] == '{' == s[at + 1]
    ensures ParseField(h, s, at, st) == FieldEnd(TellText(st, ['{']), at + 2)
  {
    assert s[at + 1..at + 2] == ['{'];
  }

  /** The plain characters from i to at are still to be told. */
  lemma {:induction false} PiecesScan(h: Handler, s: string, i: nat, at: nat, ps: seq<Piece>, st: State)
    requires i <= at <= |s| && !st.failed && forall k :: i <= k < at ==> !IsBrace(s[k])
    requires AllGood(ps) && s[at..] == Print(ps) && !Hear(h, st, s[i..at], ps, at).failed
    ensures Scan(h, s, i, st) == Hear(h, st, s[i..at], ps, at)
    decreases |ps|
  {
    hide Scan, HearField, PrintPiece, Good, AllGood, Hear, Print, TellText, ParseField, Starts;
    if ps == [] {
      NothingPrinted(h, s, i, at, st);
      ScanText(h, s, i, st);
      return;
    }
    var p, rest, pending := ps[0], ps[1..], s[i..at];
    var next := at + |PrintPiece(p)|;
    FirstPiece(s, at, ps);
    HearFirst(h, st, pending, ps, at);
    assert s[next..next] == "";
    if !p.Lit? {
      var st1 := HearField(h, TellText(st, pending), p, at);
      if st1.failed { HearFailed(h, st1, "", rest, next); }
      TellKeeps(st, pending);
      FieldScans(h, s, at, p, TellText(st, pending));
      ScanField(h, s, i, at, st);
      PiecesScan(h, s, next, next, rest, st1);
    } else {
      LitPrints(s, at, p);
      assert s[i..at + 1] == pending + [p.c];
      if p.c == '{' {
        ScanField(h, s, i, at, st);
        DoubledOpening(h, s, at, TellText(st, pending));
        TellKeeps(st, pending);
        TellKeeps(TellText(st, pending), [p.c]);
        PiecesScan(h, s, next, next, rest, TellText(TellText(st, pending), [p.c]));
      } else if p.c == '}' {
        ScanClosing(h, s, i, at, st);
        TellKeeps(st, pending + [p.c]);
        PiecesScan(h, s, next, next, rest, TellText(st, pending + [p.c]));
      } else {
        PiecesScan(h, s, i, next, rest, st);
      }
    }
  }

  lemma TellKeeps(st: State, t: string)
    ensures TellText(st, t).failed == st.failed
  {}

  lemma NothingPrinted(h: Handler, s: string, i: nat, at: nat, st: State)
    requires i <= at <= |s| && s[at..] == Print([]) && !st.failed
    ensures at == |s| && s[i..at] == s[i..] && Hear(h, st, s[i..at], [], at) == TellText(st, s[i..])
  {}
}
