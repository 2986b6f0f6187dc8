/** Format strings that scan without error are built from pieces. */
module FormatParsing {
  import opened Digits
  import opened FormatString
  import opened FormatPieces

  function Lits(t: string): seq<Piece> {
    if t == "" then [] else [Lit(t[0])] + Lits(t[1..])
  }

  lemma {:induction false} LitsGood(t: string)
    ensures AllGood(Lits(t))
  {
    if t != "" { LitsGood(t[1..]); }
  }

  lemma LitsFirst(t: string, ps: seq<Piece>)
    requires t != ""
    ensures Lits(t) + ps == [Lit(t[0])] + (Lits(t[1..]) + ps)
  {}

  lemma PrintFirst(p: Piece, ps: seq<Piece>)
    ensures Print([p] + ps) == PrintPiece(p) + Print(ps)
  {
    hide PrintPiece;
    assert ([p] + ps)[0] == p && ([p] + ps)[1..] == ps;
  }

  /** Plain characters in front of other pieces. */
  lemma {:induction false} PlainFirst(h: Handler, st: State, pending: string, t: string, ps: seq<Piece>, i: nat)
    requires AllGood(ps) && !st.failed && forall k :: 0 <= k < |t| ==> !IsBrace(t[k])
    ensures AllGood(Lits(t) + ps) && Print(Lits(t) + ps) == t + Print(ps)
    ensures Hear(h, st, pending, Lits(t) + ps, i) == Hear(h, st, pending + t, ps, i + |t|)
    decreases |t|
  {
    hide Hear, Good, AllGood, HearField, Lits, Print;
    GoodTogether(Lits(t), ps, t);
    if t == "" {
      NoLits();
      assert [] + ps == ps && pending + t == pending && t + Print(ps) == Print(ps);
    } else {
      var c, more := t[0], Lits(t[1..]) + ps;
      LitsFirst(t, ps);
      assert ([Lit(c)] + more)[0] == Lit(c) && ([Lit(c)] + more)[1..] == more;
      HearFirst(h, st, pending, [Lit(c)] + more, i);
      PrintFirst(Lit(c), more);
      PlainFirst(h, st, pending + [c], t[1..], ps, i + 1);
      assert (pending + [c]) + t[1..] == pending + t;
      assert [c] + (t[1..] + Print(ps)) == t + Print(ps);
    }
  }

  lemma NoLits()
    ensures Lits("") == []
  {}

  lemma GoodTogether(ls: seq<Piece>, ps: seq<Piece>, t: string)
    requires ls == Lits(t) && AllGood(ps)
    ensures AllGood(ls + ps)
  {
    LitsGood(t);
  }

  /** Takes a string that scans apart. */
  lemma {:induction false} ScanWasPrinted(h: Handler, s: string, i: nat, st: State) returns (ps: seq<Piece>)
    requires i <= |s|
    ensures AllGood(ps)
    ensures !Scan(h, s, i, st).failed ==> s[i..] == Print(ps) && Hear(h, st, "", ps, i) == Scan(h, s, i, st)
    decreases |s| - i
  {
    hide HearField, PrintPiece, Good, AllGood, Hear, Print, TellText, ParseField, Lits, Scan;
    hide NextBrace, HeardFirst;
    ps := [];
    NoPieces(h, st, "", st);
    if Scan(h, s, i, st).failed {
      return;
    }
    ScanOnwards(h, s, i, st);
    var j := NextBrace(s, i);
    var t := s[i..j];
    assert forall k :: 0 <= k < |t| ==> t[k] == s[i + k];
    if j == |s| {
      NoPieces(h, TellText(st, t), t, st);
      PlainFirst(h, st, "", t, [], i);
      assert "" + t == t && t + "" == t && s[i..] == t;
      ps := Lits(t) + [];
      return;
    }
    var p, next, st1 := BracePiece(h, s, i, j, st);
    var rest := ScanWasPrinted(h, s, next, st1);
    OneMore(h, s, j, next, p, st, t, st1, rest);
    PlainFirst(h, st, "", t, [p] + rest, i);
    assert "" + t == t && s[i..] == t + s[j..];
    ps := Lits(t) + ([p] + rest);
  }

  lemma ScanOnwards(h: Handler, s: string, i: nat, st: State)
    requires i <= |s|
    ensures !Scan(h, s, i, st).failed ==>
              !st.failed && (NextBrace(s, i) == |s| ==> Scan(h, s, i, st) == TellText(st, s[i..]))
  {}

  lemma NoPieces(h: Handler, told: State, t: string, st: State)
    ensures AllGood([]) && Print([]) == ""
    ensures told == TellText(st, t) && !st.failed ==> forall i: nat :: Hear(h, st, t, [], i) == told
  {}

  /** What the piece that starts with the first brace does to the handler. */
  ghost predicate HeardFirst(h: Handler, st: State, t: string, p: Piece, j: nat, st1: State)
    requires Good(p)
  {
    if !p.Lit? then st1 == HearField(h, TellText(st, t), p, j)
    else IsBrace(p.c) && st1 == if p.c == '{' then TellText(TellText(st, t), [p.c]) else TellText(st, t + [p.c])
  }

  lemma BracePiece(h: Handler, s: string, i: nat, j: nat, st: State) returns (p: Piece, next: nat, st1: State)
    requires i <= |s| && !st.failed && j == NextBrace(s, i) < |s|
    ensures Good(p) && j < next <= |s|
    ensures !Scan(h, s, i, st).failed ==>
              && s[j..next] == PrintPiece(p) && Scan(h, s, i, st) == Scan(h, s, next, st1)
              && HeardFirst(h, st, s[i..j], p, j, st1)
  {
    hide HearField, ParseField, PrintPiece, GoodArg, TellText;
    p, next, st1 := Lit('{'), j + 1, st;
    if Scan(h, s, i, st).failed {
      return;
    }
    if s[j] == '{' {
      var f := ParseField(h, s, j, TellText(st, s[i..j]));
      next, st1 := f.next, f.st;
      ScanFailing(h, s, next, st1);
      if j + 1 < |s| && s[j + 1] == '{' {
        DoubledOpening(h, s, j, TellText(st, s[i..j]));
        LitText(s, j, '{');
      } else {
        p := FieldWasPrinted(h, s, j, TellText(st, s[i..j]));
      }
    } else {
      p, next, st1 := Lit('}'), j + 2, TellText(st, s[i..j + 1]);
      assert s[i..j + 1] == s[i..j] + ['}'];
      LitText(s, j, '}');
    }
  }

  lemma LitText(s: string, j: nat, c: char)
    requires j + 1 < |s| && s[j] == c == s[j + 1] && IsBrace(c)
    ensures s[j..j + 2] == PrintPiece(Lit(c))
  {
    assert s[j..j + 2] == [c, c];
  }

  lemma ScanFailing(h: Handler, s: string, i: nat, st: State)
    requires i <= |s|
    ensures st.failed ==> Scan(h, s, i, st).failed
  {}

  /** A piece in front of what is printed already. */
  lemma OneMore(h: Handler, s: string, j: nat, next: nat, p: Piece, st: State, t: string, st1: State,
      rest: seq<Piece>)
    requires Good(p) && AllGood(rest) && !st.failed && HeardFirst(h, st, t, p, j, st1)
    requires j < next <= |s| && s[j..next] == PrintPiece(p) && s[next..] == Print(rest)
    ensures AllGood([p] + rest) && s[j..] == Print([p] + rest)
    ensures Hear(h, st, t, [p] + rest, j) == Hear(h, st1, "", rest, next)
  {
    hide HearField, PrintPiece, Good, Hear;
    var ps := [p] + rest;
    assert ps[0] == p && ps[1..] == rest;
    HearFirst(h, st, t, ps, j);
    assert s[j..] == s[j..next] + s[next..];
  }
}
