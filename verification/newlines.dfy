/** The CSV helper's newline normalisation (`toCrLf`): afterwards the
    text's only line break is CR LF.

    The normalisation is two `str_replace` calls. The first replaces, in this
    order, LF CR, CR LF, LF and CR by LF; the second replaces LF by CR LF.
    Because the searches run one after the other over the whole string, the
    result is not always "one CR LF per line break of the input": `"x\r\n\ry"`
    comes out as `"x\r\ny"`. The lemmas below pin down what is guaranteed:
    the result has no bare CR or LF, the non-break text is kept in order,
    break-free text is untouched, and the strings left unchanged are exactly
    the well-formed CR LF strings, which makes the normalisation idempotent. */
module Newlines {
  import opened StrReplace

  const LF: string := "\n"
  const CR: string := "\r"
  const LFCR: string := "\n\r"
  const CRLF: string := "\r\n"

  /** The searches of the first replacement, in the order they run. */
  function NewlineCharacters(): seq<string> {
    [LFCR, CRLF, LF, CR]
  }

  /** First replacement: every newline form becomes LF. */
  function Collapse(s: string): string {
    ReplaceEach(s, NewlineCharacters(), LF)
  }

  /** Second replacement: every LF becomes CR LF. */
  function Expand(s: string): string {
    ReplaceAll(s, LF, CRLF)
  }

  /** `toCrLf`: the composition of the two replacements. */
  function ToCrLf(value: string): (r: string)
    ensures CrLfClean(r)
    ensures Strip(r) == Strip(value)
  {
    CollapseIsCrFree(value);
    ExpandIsClean(Collapse(value));
    StripCollapse(value);
    StripReplace(Collapse(value), LF, CRLF);
    Expand(Collapse(value))
  }

  predicate IsBreak(c: char) {
    c == '\r' || c == '\n'
  }

  /** No CR and no LF at all. */
  predicate NoBreaks(s: string) {
    forall i :: 0 <= i < |s| ==> !IsBreak(s[i])
  }

  /** No CR. */
  predicate CrFree(s: string) {
    forall i :: 0 <= i < |s| ==> s[i] != '\r'
  }

  /** Every CR is immediately followed by LF and every LF is immediately
      preceded by CR: the only line break is CR LF. */
  predicate CrLfClean(s: string) {
    && (forall i {:trigger s[i]} :: 0 <= i < |s| && s[i] == '\r' ==> i + 1 < |s| && s[i + 1] == '\n')
    && (forall i {:trigger s[i]} :: 0 <= i < |s| && s[i] == '\n' ==> 0 < i && s[i - 1] == '\r')
  }

  /** The text with every CR and LF removed. */
  function Strip(s: string): (r: string)
    ensures NoBreaks(r)
    ensures NoBreaks(s) ==> r == s
    decreases |s|
  {
    if |s| == 0 then s
    else if IsBreak(s[0]) then Strip(s[1..])
    else
      assert s == [s[0]] + s[1..];
      [s[0]] + Strip(s[1..])
  }

  lemma {:induction false} StripConcat(a: string, b: string)
    ensures Strip(a + b) == Strip(a) + Strip(b)
    decreases |a|
  {
    if |a| > 0 {
      assert (a + b)[0] == a[0];
      assert (a + b)[1..] == a[1..] + b;
      StripConcat(a[1..], b);
      if !IsBreak(a[0]) {
        assert [a[0]] + (Strip(a[1..]) + Strip(b)) == ([a[0]] + Strip(a[1..])) + Strip(b);
      }
    } else {
      assert a + b == b;
    }
  }

  /** Replacing break-only text by break-only text keeps the non-break text. */
  lemma {:induction false} StripReplace(s: string, search: string, rep: string)
    requires Strip(search) == [] && Strip(rep) == []
    ensures Strip(ReplaceAll(s, search, rep)) == Strip(s)
    decreases |s|
  {
    if |search| == 0 || |s| < |search| {
    } else if StartsWith(s, search) {
      StripReplace(s[|search|..], search, rep);
      StripConcat(rep, ReplaceAll(s[|search|..], search, rep));
      assert s == search + s[|search|..];
      StripConcat(search, s[|search|..]);
    } else {
      StripReplace(s[1..], search, rep);
      StripConcat([s[0]], ReplaceAll(s[1..], search, rep));
      assert s == [s[0]] + s[1..];
      StripConcat([s[0]], s[1..]);
    }
  }

  lemma StripCollapse(s: string)
    ensures Strip(Collapse(s)) == Strip(s)
  {
    var s1 := ReplaceAll(s, LFCR, LF);
    var s2 := ReplaceAll(s1, CRLF, LF);
    var s3 := ReplaceAll(s2, LF, LF);
    var s4 := ReplaceAll(s3, CR, LF);
    assert Collapse(s) == s4 by {
      assert NewlineCharacters()[1..] == [CRLF, LF, CR];
      assert ReplaceEach(s4, [], LF) == s4;
    }
    assert Strip(LFCR) == [] && Strip(CRLF) == [] && Strip(LF) == [] && Strip(CR) == [] by {
      assert LFCR[1..] == CR && CRLF[1..] == LF;
    }
    StripReplace(s, LFCR, LF);
    StripReplace(s1, CRLF, LF);
    StripReplace(s2, LF, LF);
    StripReplace(s3, CR, LF);
  }

  /** The four searches of the first replacement, spelled out. */
  lemma CollapseSteps(s: string)
    ensures Collapse(s) ==
      ReplaceAll(ReplaceAll(ReplaceAll(ReplaceAll(s, LFCR, LF), CRLF, LF), LF, LF), CR, LF)
  {
    var s4 := ReplaceAll(ReplaceAll(ReplaceAll(ReplaceAll(s, LFCR, LF), CRLF, LF), LF, LF), CR, LF);
    assert NewlineCharacters()[1..] == [CRLF, LF, CR];
    assert ReplaceEach(s4, [], LF) == s4;
  }

  /** After the first replacement no CR is left: the last search removes them. */
  lemma CollapseIsCrFree(s: string)
    ensures CrFree(Collapse(s))
  {
    CollapseSteps(s);
    var s3 := ReplaceAll(ReplaceAll(ReplaceAll(s, LFCR, LF), CRLF, LF), LF, LF);
    ReplaceCharRemoves(s3, '\r', LF);
  }

  /** Expanding one character at the front of a CR-free string. */
  lemma ExpandCons(c: string)
    requires |c| > 0
    ensures Expand(c) == (if c[0] == '\n' then CRLF else [c[0]]) + Expand(c[1..])
  {
    assert c == [c[0]] + c[1..];
    if c[0] == '\n' {
      assert c == LF + c[1..];
      PeelHit(c[1..], LF, CRLF);
    } else {
      PeelMiss(c[0], c[1..], LF, CRLF);
    }
  }

  lemma CleanConcat(a: string, b: string)
    requires CrLfClean(a) && CrLfClean(b)
    ensures CrLfClean(a + b)
  {
  }

  /** Expanding a CR-free string yields a well-formed CR LF string. */
  lemma {:induction false} ExpandIsClean(c: string)
    requires CrFree(c)
    ensures CrLfClean(Expand(c))
    decreases |c|
  {
    if |c| > 0 {
      ExpandCons(c);
      ExpandIsClean(c[1..]);
      var head := if c[0] == '\n' then CRLF else [c[0]];
      assert CrLfClean(head);
      CleanConcat(head, Expand(c[1..]));
    }
  }

  /** What the LF CR search makes of an expanded CR-free string: the CR that
      `Expand` put in front of an LF disappears when the previous character
      was also an LF. `afterLf` says whether an LF precedes `c`. */
  function DropCrAfterLf(c: string, afterLf: bool): string
    decreases |c|
  {
    if |c| == 0 then []
    else if c[0] == '\n' then (if afterLf then LF else CRLF) + DropCrAfterLf(c[1..], true)
    else [c[0]] + DropCrAfterLf(c[1..], false)
  }

  lemma {:induction false} LfCrOnExpanded(c: string)
    requires CrFree(c)
    ensures ReplaceAll(Expand(c), LFCR, LF) == DropCrAfterLf(c, false)
    decreases |c|, 0
  {
    if |c| > 0 {
      ExpandCons(c);
      var e := Expand(c[1..]);
      if c[0] == '\n' {
        LfCrOnExpandedAfterLf(c[1..]);
        assert Expand(c) == ['\r'] + (LF + e);
        PeelMiss('\r', LF + e, LFCR, LF);
        var d := DropCrAfterLf(c[1..], true);
        assert DropCrAfterLf(c, false) == CRLF + d;
        assert ['\r'] + (LF + d) == CRLF + d;
      } else {
        LfCrOnExpanded(c[1..]);
        PeelMiss(c[0], e, LFCR, LF);
        assert DropCrAfterLf(c, false) == [c[0]] + DropCrAfterLf(c[1..], false);
      }
    }
  }

  lemma {:induction false} LfCrOnExpandedAfterLf(c: string)
    requires CrFree(c)
    ensures ReplaceAll(LF + Expand(c), LFCR, LF) == LF + DropCrAfterLf(c, true)
    decreases |c|, 1
  {
    if |c| == 0 {
      assert LF + Expand(c) == LF;
    } else {
      ExpandCons(c);
      var e := Expand(c[1..]);
      if c[0] == '\n' {
        LfCrOnExpandedAfterLf(c[1..]);
        assert LF + Expand(c) == LFCR + (LF + e);
        PeelHit(LF + e, LFCR, LF);
      } else {
        LfCrOnExpanded(c[1..]);
        assert c[0] != '\r';
        assert LF + Expand(c) == ['\n', c[0]] + e;
        PeelMissPair('\n', c[0], e, LFCR, LF);
        PeelMiss(c[0], e, LFCR, LF);
        var d := DropCrAfterLf(c[1..], false);
        assert DropCrAfterLf(c, true) == [c[0]] + d;
        assert ['\n'] + ([c[0]] + d) == LF + ([c[0]] + d);
      }
    }
  }

  lemma {:induction false} CrLfOnDropped(c: string, afterLf: bool)
    requires CrFree(c)
    ensures ReplaceAll(DropCrAfterLf(c, afterLf), CRLF, LF) == c
    decreases |c|
  {
    if |c| > 0 {
      var d := DropCrAfterLf(c[1..], c[0] == '\n');
      CrLfOnDropped(c[1..], c[0] == '\n');
      if c[0] == '\n' && !afterLf {
        PeelHit(d, CRLF, LF);
      } else {
        PeelMiss(c[0], d, CRLF, LF);
      }
      assert c == [c[0]] + c[1..];
    }
  }

  /** The first replacement undoes the second on CR-free text. */
  lemma CollapseExpand(c: string)
    requires CrFree(c)
    ensures Collapse(Expand(c)) == c
  {
    CollapseSteps(Expand(c));
    LfCrOnExpanded(c);
    CrLfOnDropped(c, false);
    ReplaceBySelf(c, LF);
    ReplaceAbsent(c, CR, LF);
  }

  /** Every well-formed CR LF string is the expansion of a CR-free string. */
  lemma {:induction false} CleanIsExpansion(t: string)
    requires CrLfClean(t)
    ensures CrFree(ReplaceAll(t, CRLF, LF))
    ensures Expand(ReplaceAll(t, CRLF, LF)) == t
    decreases |t|
  {
    if |t| > 0 {
      assert t[0] != '\n';
      if t[0] == '\r' {
        var rest := t[2..];
        assert t == CRLF + rest;
        assert CrLfClean(rest) by {
          forall i | 0 <= i < |rest| && rest[i] == '\n'
            ensures 0 < i && rest[i - 1] == '\r'
          {
            assert t[i + 2] == '\n';
          }
        }
        CleanIsExpansion(rest);
        PeelHit(rest, CRLF, LF);
        var c := ReplaceAll(t, CRLF, LF);
        assert c == LF + ReplaceAll(rest, CRLF, LF);
        ExpandCons(c);
        assert c[1..] == ReplaceAll(rest, CRLF, LF);
      } else {
        var rest := t[1..];
        assert t == [t[0]] + rest;
        assert CrLfClean(rest) by {
          forall i | 0 <= i < |rest| && rest[i] == '\n'
            ensures 0 < i && rest[i - 1] == '\r'
          {
            assert t[i + 1] == '\n';
          }
        }
        CleanIsExpansion(rest);
        PeelMiss(t[0], rest, CRLF, LF);
        var c := ReplaceAll(t, CRLF, LF);
        assert c == [t[0]] + ReplaceAll(rest, CRLF, LF);
        ExpandCons(c);
        assert c[1..] == ReplaceAll(rest, CRLF, LF);
      }
    }
  }

  /** The strings `toCrLf` leaves unchanged are exactly the well-formed CR LF strings. */
  lemma ToCrLfFixedPoints(t: string)
    ensures ToCrLf(t) == t <==> CrLfClean(t)
  {
    if CrLfClean(t) {
      CleanIsExpansion(t);
      CollapseExpand(ReplaceAll(t, CRLF, LF));
    }
  }

  /** Normalising twice is normalising once. */
  lemma ToCrLfIdempotent(s: string)
    ensures ToCrLf(ToCrLf(s)) == ToCrLf(s)
  {
    ToCrLfFixedPoints(ToCrLf(s));
  }

  /** Text without line breaks passes through unchanged. */
  lemma ToCrLfKeepsBreakFree(s: string)
    requires NoBreaks(s)
    ensures ToCrLf(s) == s
  {
    assert CrLfClean(s);
    ToCrLfFixedPoints(s);
  }

  /** One search of either replacement, applied to text split in front of a
      non-break character: the two sides are replaced independently. */
  lemma SplitStep(u: string, v: string, search: string, rep: string)
    requires |v| > 0 && !IsBreak(v[0])
    requires |search| > 0 && forall k :: 0 <= k < |search| ==> IsBreak(search[k])
    ensures ReplaceAll(u + v, search, rep) == ReplaceAll(u, search, rep) + ReplaceAll(v, search, rep)
    ensures |ReplaceAll(v, search, rep)| > 0 && ReplaceAll(v, search, rep)[0] == v[0]
  {
    ReplaceSplit(u, v, search, rep);
    PeelMiss(v[0], v[1..], search, rep);
    assert v == [v[0]] + v[1..];
  }

  /** Two searches of breaks in a row, on text split in front of a
      non-break character. */
  lemma SplitTwice(u: string, v: string, s1: string, s2: string, rep: string)
    requires |v| > 0 && !IsBreak(v[0])
    requires |s1| > 0 && forall k :: 0 <= k < |s1| ==> IsBreak(s1[k])
    requires |s2| > 0 && forall k :: 0 <= k < |s2| ==> IsBreak(s2[k])
    ensures ReplaceAll(ReplaceAll(u + v, s1, rep), s2, rep)
         == ReplaceAll(ReplaceAll(u, s1, rep), s2, rep) + ReplaceAll(ReplaceAll(v, s1, rep), s2, rep)
    ensures |ReplaceAll(ReplaceAll(v, s1, rep), s2, rep)| > 0 && ReplaceAll(ReplaceAll(v, s1, rep), s2, rep)[0] == v[0]
  {
    SplitStep(u, v, s1, rep);
    SplitStep(ReplaceAll(u, s1, rep), ReplaceAll(v, s1, rep), s2, rep);
  }

  lemma CollapseSplit(u: string, v: string)
    requires |v| > 0 && !IsBreak(v[0])
    ensures Collapse(u + v) == Collapse(u) + Collapse(v)
    ensures |Collapse(v)| > 0 && Collapse(v)[0] == v[0]
  {
    CollapseSteps(u + v);
    CollapseSteps(u);
    CollapseSteps(v);
    SplitTwice(u, v, LFCR, CRLF, LF);
    var u2 := ReplaceAll(ReplaceAll(u, LFCR, LF), CRLF, LF);
    var v2 := ReplaceAll(ReplaceAll(v, LFCR, LF), CRLF, LF);
    SplitTwice(u2, v2, LF, CR, LF);
  }

  /** Line breaks are normalised independently on either side of a
      non-break character. */
  lemma ToCrLfSplit(u: string, v: string)
    requires |v| > 0 && !IsBreak(v[0])
    ensures ToCrLf(u + v) == ToCrLf(u) + ToCrLf(v)
  {
    CollapseSplit(u, v);
    SplitStep(Collapse(u), Collapse(v), LF, CRLF);
  }

  /** A non-break character at the front is kept and the rest is normalised. */
  lemma ToCrLfCons(x: char, w: string)
    requires !IsBreak(x)
    ensures ToCrLf([x] + w) == [x] + ToCrLf(w)
  {
    CollapseSteps([x] + w);
    CollapseSteps(w);
    var w1 := ReplaceAll(w, LFCR, LF);
    PeelMiss(x, w, LFCR, LF);
    var w2 := ReplaceAll(w1, CRLF, LF);
    PeelMiss(x, w1, CRLF, LF);
    var w3 := ReplaceAll(w2, LF, LF);
    PeelMiss(x, w2, LF, LF);
    PeelMiss(x, w3, CR, LF);
    PeelMiss(x, Collapse(w), LF, CRLF);
  }

  /** Expanding a lone LF. */
  lemma ExpandOfLf(s: string)
    requires s == LF
    ensures Expand(s) == CRLF
  {
    assert s == LF + [];
    PeelHit([], LF, CRLF);
  }

  /** A lone LF survives the first replacement. */
  lemma CollapseOfLf(s: string)
    requires s == LF
    ensures Collapse(s) == LF
  {
    CollapseSteps(s);
    ReplaceBySelf(s, LF);
    assert s == ['\n'] + [];
    PeelMiss('\n', [], CR, LF);
  }

  /** A lone CR becomes LF in the first replacement. */
  lemma CollapseOfCr(s: string)
    requires s == CR
    ensures Collapse(s) == LF
  {
    CollapseSteps(s);
    assert s == ['\r'] + [];
    PeelMiss('\r', [], LF, LF);
    assert s == CR + [];
    PeelHit([], CR, LF);
  }

  /** CR LF followed by a stray CR: the LF CR search consumes the LF and
      the CR after it, and the CR LF search then sees the CR it left and
      the LF it wrote. */
  lemma CollapseOfCrLfCr(s: string)
    requires s == "\r\n\r"
    ensures Collapse(s) == LF
  {
    CollapseSteps(s);
    var tail := LFCR + [];
    assert s == ['\r', '\n'] + CR;
    assert ['\n'] + CR == tail;
    PeelMissPair('\r', '\n', CR, LFCR, LF);
    PeelHit([], LFCR, LF);
    var c1 := ReplaceAll(s, LFCR, LF);
    assert c1 == CRLF + [];
    PeelHit([], CRLF, LF);
    var c2 := ReplaceAll(c1, CRLF, LF);
    assert c2 == LF;
    ReplaceBySelf(c2, LF);
    assert c2 == ['\n'] + [];
    PeelMiss('\n', [], CR, LF);
  }

  /** A lone LF becomes CR LF. */
  lemma ToCrLfOfLf(s: string)
    requires s == LF
    ensures ToCrLf(s) == CRLF
  {
    CollapseOfLf(s);
    ExpandOfLf(Collapse(s));
  }

  /** A lone CR becomes CR LF. */
  lemma ToCrLfOfCr(s: string)
    requires s == CR
    ensures ToCrLf(s) == CRLF
  {
    CollapseOfCr(s);
    ExpandOfLf(Collapse(s));
  }

  /** CR LF followed by a stray CR collapses to a single CR LF. */
  lemma ToCrLfOfCrLfCr(s: string)
    requires s == "\r\n\r"
    ensures ToCrLf(s) == CRLF
  {
    CollapseOfCrLfCr(s);
    ExpandOfLf(Collapse(s));
  }

  /** A lone LF and a lone CR between ordinary characters each become
      CR LF, and a well-formed tail is kept. */
  lemma {:induction false} ToCrLfMixed(a: char, b: char, tail: string)
    requires !IsBreak(a) && !IsBreak(b)
    requires |tail| > 0 && !IsBreak(tail[0]) && CrLfClean(tail)
    ensures ToCrLf([a] + (LF + ([b] + (CR + tail)))) == [a] + (CRLF + ([b] + (CRLF + tail)))
  {
    var r3 := CR + tail;
    var r2 := [b] + r3;
    var r1 := LF + r2;
    ToCrLfFixedPoints(tail);
    ToCrLfSplit(CR, tail);
    ToCrLfOfCr(CR);
    ToCrLfCons(b, r3);
    assert r2[0] == b;
    ToCrLfSplit(LF, r2);
    ToCrLfOfLf(LF);
    ToCrLfCons(a, r1);
  }

  /** The pieces of the mixed example's input. */
  lemma MixedInput(s: string, tail: string)
    requires s == "a\nb\rc\r\nd" && tail == "c\r\nd"
    ensures s == ['a'] + (LF + (['b'] + (CR + tail)))
    ensures |tail| > 0 && !IsBreak(tail[0]) && CrLfClean(tail)
  {
  }

  /** The pieces of the mixed example's output. */
  lemma MixedOutput(tail: string)
    requires tail == "c\r\nd"
    ensures ['a'] + (CRLF + (['b'] + (CRLF + tail))) == "a\r\nb\r\nc\r\nd"
  {
  }

  /** Mixed line breaks: each becomes CR LF. */
  lemma ToCrLfMixedExample(s: string)
    requires s == "a\nb\rc\r\nd"
    ensures ToCrLf(s) == "a\r\nb\r\nc\r\nd"
  {
    var tail: string := "c\r\nd";
    MixedInput(s, tail);
    ToCrLfMixed('a', 'b', tail);
    MixedOutput(tail);
  }

  /** A piece that normalises to a single CR LF, between an ordinary
      character and break-free text, normalises on its own. */
  lemma {:induction false} ToCrLfAround(x: char, w: string, y: string)
    requires !IsBreak(x) && |y| > 0 && NoBreaks(y)
    requires ToCrLf(w) == CRLF
    ensures ToCrLf([x] + (w + y)) == [x] + (CRLF + y)
  {
    assert !IsBreak(y[0]);
    ToCrLfCons(x, w + y);
    ToCrLfSplit(w, y);
    ToCrLfKeepsBreakFree(y);
  }

  /** The pieces of the collapsing example's input and output. */
  lemma CollapsingPieces(s: string, crlfcr: string, y: string)
    requires s == "x\r\n\ry" && crlfcr == "\r\n\r" && y == "y"
    ensures s == ['x'] + (crlfcr + y) && NoBreaks(y) && |y| > 0
    ensures ['x'] + (CRLF + y) == "x\r\ny"
  {
  }

  /** `"x\r\n\ry"` keeps a single line break. */
  lemma ToCrLfCollapsingExample(s: string)
    requires s == "x\r\n\ry"
    ensures ToCrLf(s) == "x\r\ny"
  {
    var y: string := "y";
    var crlfcr: string := "\r\n\r";
    CollapsingPieces(s, crlfcr, y);
    ToCrLfOfCrLfCr(crlfcr);
    ToCrLfAround('x', crlfcr, y);
  }
}
