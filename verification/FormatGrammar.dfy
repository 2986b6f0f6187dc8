/** What the scanners accept: exactly what is built from pieces; doubled braces as a special case. */
module FormatGrammar {
  import opened FormatString
  import opened FormatPieces
  import opened FormatParsing

  /** What a handler hears of pieces printed from the start. */
  ghost function HearAll(h: Handler, ps: seq<Piece>): State
    requires AllGood(ps)
  {
    Hear(h, START, "", ps, 0)
  }

  /** The string is printed from pieces that the handler accepts. */
  ghost predicate PrintedFrom(h: Handler, s: string, ps: seq<Piece>) {
    AllGood(ps) && Print(ps) == s && !HearAll(h, ps).failed
  }

  /** A string is accepted exactly if it is printed from pieces the handler accepts; it then hears exactly
      these, in order. */
  lemma AcceptedExactly(h: Handler, s: string)
    ensures !Scan(h, s, 0, START).failed <==> exists ps :: PrintedFrom(h, s, ps)
    ensures forall ps :: PrintedFrom(h, s, ps) ==> Scan(h, s, 0, START) == HearAll(h, ps)
  {
    hide Scan, Hear, Print, AllGood;
    assert s[0..] == s && s[0..0] == "";
    if !Scan(h, s, 0, START).failed {
      var ps := ScanWasPrinted(h, s, 0, START);
      assert PrintedFrom(h, s, ps);
    }
    forall ps | PrintedFrom(h, s, ps)
      ensures Scan(h, s, 0, START) == HearAll(h, ps)
    {
      PiecesScan(h, s, 0, 0, ps, START);
    }
  }

  // ---- Doubled braces ----

  /** The text with every brace doubled. */
  function Escape(t: string): string {
    if t == "" then "" else (if IsBrace(t[0]) then [t[0], t[0]] else [t[0]]) + Escape(t[1..])
  }

  /** The literal text a handler was given. */
  function AllText(es: seq<Event>): string {
    if es == [] then "" else AllText(es[..|es| - 1]) + (if es[|es| - 1].Text? then es[|es| - 1].s else "")
  }

  predicate OnlyText(es: seq<Event>) { forall k :: 0 <= k < |es| ==> es[k].Text? }

  lemma TellTextAppends(st: State, t: string)
    requires OnlyText(st.told)
    ensures OnlyText(TellText(st, t).told) && AllText(TellText(st, t).told) == AllText(st.told) + t
  {
    if t != "" {
      assert (st.told + [Text(t)])[..|st.told|] == st.told;
    }
  }

  /** Of characters alone only text is heard, all of it. */
  lemma {:induction false} LitsHeard(h: Handler, st: State, pending: string, t: string, i: nat)
    requires !st.failed && OnlyText(st.told)
    ensures AllGood(Lits(t)) && Print(Lits(t)) == Escape(t)
    ensures var r := Hear(h, st, pending, Lits(t), i);
            !r.failed && OnlyText(r.told) && AllText(r.told) == AllText(st.told) + pending + t
    decreases |t|
  {
    hide Hear, AllText, OnlyText, HearField;
    LitsGood(t);
    if t == "" {
      NoPieces(h, TellText(st, pending), pending, st);
      TellTextAppends(st, pending);
      assert AllText(st.told) + pending + t == AllText(st.told) + pending;
    } else {
      HearFirst(h, st, pending, Lits(t), i);
      var c, rest, next := t[0], t[1..], i + |PrintPiece(Lit(t[0]))|;
      assert Lits(t)[1..] == Lits(rest);
      assert AllText(st.told) + pending + t == AllText(st.told) + (pending + [c]) + rest;
      if c == '{' {
        TellTextAppends(st, pending);
        TellTextAppends(TellText(st, pending), [c]);
        LitsHeard(h, TellText(TellText(st, pending), [c]), "", rest, next);
        assert (AllText(st.told) + pending) + [c] == AllText(st.told) + (pending + [c]);
      } else if c == '}' {
        TellTextAppends(st, pending + [c]);
        LitsHeard(h, TellText(st, pending + [c]), "", rest, next);
      } else {
        LitsHeard(h, st, pending + [c], rest, next);
      }
    }
  }

  /** Brace-doubling any text and scanning it returns the text, asking the handler nothing. */
  lemma EscapeRoundTrip(h: Handler, t: string)
    ensures var r := Scan(h, Escape(t), 0, START);
            !r.failed && OnlyText(r.told) && AllText(r.told) == t
  {
    hide Scan, Hear, Print, Escape;
    LitsHeard(h, START, "", t, 0);
    AcceptedExactly(h, Escape(t));
    assert PrintedFrom(h, Escape(t), Lits(t));
    assert AllText([]) + "" + t == t;
  }
}
