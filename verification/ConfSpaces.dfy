/**
 Where whitespace survives in names and values (conf.c:114-118, 128-152, 177-217): names are
 normalised and values trimmed, except around a continuation.
 */
module ConfSpaces {
  import opened Conf
  import opened ConfText

  // ------------------------------------------------------------ The ends of a value

  /** A value on one line is trimmed. */
  lemma OneLineTrimmed(p: text)
    ensures var v := ValueOf([p]); v == [] || !IsSpace(v[|v| - 1])
  {
    TrimEnds(p);
  }

  lemma {:induction false} TrimEnds(p: text)
    ensures Trim(p) > 0 ==> !IsSpace(p[Trim(p) - 1])
    ensures Trim(p) == 0 <==> forall i :: 0 <= i < |p| ==> IsSpace(p[i])
  {
    if p != [] {
      TrimEnds(p[..|p| - 1]);
    }
  }

  lemma {:induction false} ValueParts(pieces: seq<text>)
    requires pieces != []
    ensures var n := |pieces| - 1; ValueOf(pieces) == Joined(pieces[..n]) + pieces[n][..Trim(pieces[n])]
    decreases |pieces|
  {
    hide Trim;
    if |pieces| > 1 {
      ValueParts(pieces[1..]);
      assert pieces[..|pieces| - 1][1..] == pieces[1..][..|pieces| - 2];
    }
  }

  /**
   A value ends in whitespace exactly when nothing but whitespace follows the last continuation and
   what comes before it, however often continued, ends in whitespace.
   */
  lemma TrailingSpaceExactly(pieces: seq<text>)
    requires pieces != []
    ensures var v, n := ValueOf(pieces), |pieces| - 1;
            var before := Joined(pieces[..n]);
            (v != [] && IsSpace(v[|v| - 1])) <==> Trim(pieces[n]) == 0 && before != [] && IsSpace(before[|before| - 1])
  {
    hide Joined;
    var v, last := ValueOf(pieces), pieces[|pieces| - 1];
    ValueParts(pieces);
    TrimEnds(last);
    if Trim(last) > 0 {
      assert v[|v| - 1] == last[Trim(last) - 1];
    } else {
      assert v == Joined(pieces[..|pieces| - 1]);
    }
  }

  /**
   A value starts with whitespace exactly when what comes before the last continuation does, or
   is empty and the last piece, which is not all whitespace, does.
   */
  lemma LeadingSpaceExactly(pieces: seq<text>)
    requires pieces != []
    ensures var v, n := ValueOf(pieces), |pieces| - 1;
            var before := Joined(pieces[..n]);
            (v != [] && IsSpace(v[0])) <==>
              if before != [] then IsSpace(before[0]) else Trim(pieces[n]) > 0 && IsSpace(pieces[n][0])
  {
    hide Joined, Trim;
    ValueParts(pieces);
  }

  /** In a file this takes a continuation right behind the sign. */
  lemma LeadingSpaceContinued(it: Item)
    requires ItemOk(it) && it.Setting?
    ensures var v := ValueOf(AllStored(it.pieces));
            v != [] && IsSpace(v[0]) ==> it.pieces[0] == [] && |it.pieces| > 1
  {
    hide Trim, PieceOk, GapOk, TailOk, FindContinuation, Wordy;
    var p := it.pieces[0];
    var q := Stored(p);
    if p != [] {
      StoredStarts(p);
      if |it.pieces| == 1 {
        assert AllStored(it.pieces) == [q];
      } else {
        assert AllStored(it.pieces)[0] == q;
      }
    } else if |it.pieces| == 1 {
      assert AllStored(it.pieces) == [[]];
    }
  }

  // ------------------------------------------------------------------ Three inputs

  function TwoLines(pieces: seq<text>): Item {
    Setting([], [['n' as int]], [], Gap([], []), [], pieces, [Tail([], []), Tail([], [])])
  }

  /** `n=`, the first piece, a backslash, and the second piece on the next line. */
  lemma TwoLinesReads(p: text, q: text, section: text)
    requires PieceOk(p) && PieceOk(q) && RETURN !in p && RETURN !in q
    requires (p == [] || !IsSpace(p[0])) && FindContinuation(p + q) < 0
    ensures Lines(['n' as int, '=' as int] + (p + (['\\' as int, '\n' as int] + (q + ['\n' as int]))), section, [])
         == Done([Call(section, ['n' as int], p + q[..Trim(q)])])
  {
    hide Lines, ItemOk, ItemText, Trim, FindContinuation, Effect, ValueOf, Joined;
    var it := TwoLines([p, q]);
    TwoLinesValue(p, q);
    TwoLinesOk(p, q);
    TwoLinesText(p, q);
    TwoLinesEffect(p, q, section);
    ReadItem(it, [], section, []);
    assert ItemText(it) + [] == ItemText(it);
    EmptyFile(section, Effect(it, section, []).1);
  }

  lemma {:induction false} NoReturns(p: text)
    requires RETURN !in p
    ensures Stored(p) == p
  {
    if p != [] {
      NoReturns(p[..|p| - 1]);
      assert p[..|p| - 1] + [p[|p| - 1]] == p;
    }
  }

  lemma TwoLinesValue(p: text, q: text)
    requires RETURN !in p && RETURN !in q
    ensures var ps := AllStored([p, q]);
            ps == [p, q] && Joined(ps) == p + q && ValueOf(ps) == p + q[..Trim(q)]
  {
    hide Trim;
    NoReturns(p);
    NoReturns(q);
    assert [p, q][1..] == [q] && [q][1..] == [];
    assert AllStored([q]) == [q] && AllStored([p, q]) == [p] + [q];
    assert Joined([q]) == q + [] == q;
  }

  lemma TwoLinesOk(p: text, q: text)
    requires PieceOk(p) && PieceOk(q) && (p == [] || !IsSpace(p[0]))
    requires Joined(AllStored([p, q])) == p + q && FindContinuation(p + q) < 0
    ensures ItemOk(TwoLines([p, q]))
  {
    hide Joined, AllStored, FindContinuation, GapOk, WordOk, PieceOk, TailOk;
    PlainParts();
    assert WordOk(['n' as int], false);
  }

  lemma PlainParts()
    ensures WordOk(['n' as int], false) && WordOk(['x' as int], true) && TailOk(Tail([], []))
    ensures GapOk(Gap([], []), false) && GapOk(Gap([], []), true)
    ensures GapOk(Gap([], [(Tail([], []), [SPACE])]), true)
  {
  }

  lemma TwoLinesText(p: text, q: text)
    requires ItemOk(TwoLines([p, q]))
    ensures ItemText(TwoLines([p, q])) == ['n' as int, EQUALS] + (p + ([BACKSLASH, NEWLINE] + (q + [NEWLINE])))
  {
    hide ItemOk, ValueText;
    var it, l := TwoLines([p, q]), Tail([], []);
    assert Spaced(it.words, it.gaps) == ['n' as int] && GapText(it.before) == [];
    assert [p, q][1..] == [q] && it.tails[1..] == [l] && TailText(l) == [NEWLINE];
    assert ValueText(it.pieces, it.tails) == p + ([BACKSLASH] + ([NEWLINE] + (q + [NEWLINE]))) by {
      TwoPieces(p, q, l);
    }
    assert ItemText(it) == [] + (['n' as int] + ([] + ([EQUALS] + ([] + ValueText(it.pieces, it.tails)))));
  }

  lemma TwoPieces(p: text, q: text, l: Tail)
    ensures ValueText([p, q], [l, l]) == p + ([BACKSLASH] + (TailText(l) + (q + TailText(l))))
  {
    hide TailText;
    assert [p, q][1..] == [q] && [l, l][1..] == [l];
  }

  lemma TwoLinesEffect(p: text, q: text, section: text)
    requires ItemOk(TwoLines([p, q])) && ValueOf(AllStored([p, q])) == p + q[..Trim(q)]
    ensures Effect(TwoLines([p, q]), section, []) == (section, [Call(section, ['n' as int], p + q[..Trim(q)])])
  {
    hide ItemOk, ValueOf, AllStored, Trim;
    var it, calls := TwoLines([p, q]), [Call(section, ['n' as int], p + q[..Trim(q)])];
    assert Normal(it.words, it.gaps) == ['n' as int];
    assert [] + calls == calls;
  }

  /** The line `n=a \` and an empty line: the value keeps the space in front of the continuation. */
  lemma EndKept()
    ensures Lines(['n' as int, '=' as int, 'a' as int, ' ' as int, '\\' as int, '\n' as int, '\n' as int], [], [])
         == Done([Call([], ['n' as int], ['a' as int, ' ' as int])])
  {
    hide Lines;
    var p, q: text := ['a' as int, SPACE], [];
    assert p[..1] == ['a' as int] && p + q == p && FindContinuation(['a' as int]) < 0;
    TwoLinesReads(p, q, []);
    assert ['n' as int, EQUALS] + (p + ([BACKSLASH, NEWLINE] + (q + [NEWLINE])))
        == ['n' as int, EQUALS, 'a' as int, SPACE, BACKSLASH, NEWLINE, NEWLINE];
  }

  /** The line `n=\` and the line ` v`: the value keeps the space behind the continuation. */
  lemma FrontKept(section: text)
    ensures Lines(['n' as int, '=' as int, '\\' as int, '\n' as int, ' ' as int, 'v' as int, '\n' as int], section, [])
         == Done([Call(section, ['n' as int], [SPACE, 'v' as int])])
  {
    hide Lines;
    var p, q: text := [], [SPACE, 'v' as int];
    assert p + q == q;
    TwoLinesReads(p, q, section);
    assert q[..2] == q;
    assert ['n' as int, EQUALS] + (p + ([BACKSLASH, NEWLINE] + (q + [NEWLINE])))
        == ['n' as int, EQUALS, BACKSLASH, NEWLINE, SPACE, 'v' as int, NEWLINE];
  }

  function SpacedHeading(): Item {
    Bracketed([], Gap([], [(Tail([], []), [SPACE])]), [['x' as int]], [], Gap([], []), [])
  }

  /** The line `[\` and the line ` x]`: the section name keeps the space, as do the calls that follow. */
  lemma SectionFrontKept()
    ensures Lines(['[' as int, '\\' as int, '\n' as int, ' ' as int, 'x' as int, ']' as int, '\n' as int]
                  + ['n' as int, '=' as int, '\\' as int, '\n' as int, ' ' as int, 'v' as int, '\n' as int], [], [])
         == Done([Call([' ' as int, 'x' as int], ['n' as int], [' ' as int, 'v' as int])])
  {
    hide Lines, ItemOk, ItemText, Effect;
    var it := SpacedHeading();
    SpacedHeadingOk();
    SpacedHeadingText();
    SpacedHeadingEffect();
    ReadItem(it, ['n' as int, EQUALS, BACKSLASH, NEWLINE, SPACE, 'v' as int, NEWLINE], [], []);
    FrontKept([SPACE, 'x' as int]);
  }

  lemma SpacedHeadingOk()
    ensures ItemOk(SpacedHeading())
  {
    hide GapOk, WordOk;
    PlainParts();
    assert WordOk(['x' as int], true);
  }

  lemma SpacedHeadingText()
    requires ItemOk(SpacedHeading())
    ensures ItemText(SpacedHeading()) == [OPEN, BACKSLASH, NEWLINE, SPACE, 'x' as int, CLOSE, NEWLINE]
  {
    hide ItemOk;
    var it, l := SpacedHeading(), Tail([], []);
    var more := it.lead.more;
    assert TailText(l) == [NEWLINE] && more[1..] == [];
    assert MoreText(more) == [BACKSLASH] + ([NEWLINE] + ([SPACE] + []));
    assert GapText(it.lead) == [BACKSLASH, NEWLINE, SPACE] && GapText(it.trail) == [];
    assert Spaced(it.words, it.gaps) == ['x' as int];
    assert ItemText(it)
        == [] + ([OPEN] + ([BACKSLASH, NEWLINE, SPACE] + (['x' as int] + ([] + ([CLOSE] + ([] + [NEWLINE]))))));
  }

  lemma SpacedHeadingEffect()
    requires ItemOk(SpacedHeading())
    ensures Effect(SpacedHeading(), [], []) == ([SPACE, 'x' as int], [])
  {
    hide ItemOk;
    var it := SpacedHeading();
    assert MoreParts(it.lead.more) && Normal(it.words, it.gaps) == ['x' as int];
    assert HeadName(it.lead, it.words, it.gaps) == [SPACE] + ['x' as int] == [SPACE, 'x' as int];
  }
}
