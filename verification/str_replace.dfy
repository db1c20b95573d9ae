/** PHP's `str_replace`, as the CSV helper uses it. With one search string
    the subject is scanned left to right and every non-overlapping
    occurrence is replaced; scanning resumes after the replaced occurrence,
    so replacement text is never rescanned. With an array of search strings
    the searches run one after another, each over the result of the
    previous one. An empty search string leaves the subject unchanged. */
module StrReplace {

  /** An occurrence of `search` starts at the front of `s`. */
  predicate StartsWith(s: string, search: string) {
    |search| <= |s| && forall i :: 0 <= i < |search| ==> s[i] == search[i]
  }

  /** `str_replace($search, $rep, $s)` for a single search string. */
  function ReplaceAll(s: string, search: string, rep: string): string
    decreases |s|
  {
    if |search| == 0 || |s| < |search| then s
    else if StartsWith(s, search) then rep + ReplaceAll(s[|search|..], search, rep)
    else [s[0]] + ReplaceAll(s[1..], search, rep)
  }

  /** `str_replace($searches, $rep, $s)`: each search in turn, over the running result. */
  function ReplaceEach(s: string, searches: seq<string>, rep: string): string
    decreases |searches|
  {
    if searches == [] then s
    else ReplaceEach(ReplaceAll(s, searches[0], rep), searches[1..], rep)
  }

  /** A character that cannot start an occurrence is copied and scanning moves on. */
  lemma PeelMiss(x: char, s: string, search: string, rep: string)
    requires |search| > 0 && x != search[0]
    ensures ReplaceAll([x] + s, search, rep) == [x] + ReplaceAll(s, search, rep)
  {
    var t := [x] + s;
    assert t[1..] == s;
    assert t[0] == x;
  }

  /** A two-character search whose second character does not follow: the
      first character is copied and scanning moves on. */
  lemma PeelMissPair(x: char, y: char, s: string, search: string, rep: string)
    requires |search| == 2 && y != search[1]
    ensures ReplaceAll([x, y] + s, search, rep) == [x] + ReplaceAll([y] + s, search, rep)
  {
    var t := [x, y] + s;
    assert t[1] == y;
    assert t[1..] == [y] + s;
  }

  /** An occurrence at the front is replaced and scanning resumes after it. */
  lemma PeelHit(s: string, search: string, rep: string)
    requires |search| > 0
    ensures ReplaceAll(search + s, search, rep) == rep + ReplaceAll(s, search, rep)
  {
    var t := search + s;
    assert StartsWith(t, search);
    assert t[|search|..] == s;
  }

  /** Replacement splits at a character that cannot be part of an
      occurrence: no occurrence can straddle it, so the scan reaches it
      exactly and carries on from there as on a fresh string. */
  lemma {:induction false} ReplaceSplit(u: string, v: string, search: string, rep: string)
    requires |search| > 0 && |v| > 0
    requires forall k :: 0 <= k < |search| ==> search[k] != v[0]
    ensures ReplaceAll(u + v, search, rep) == ReplaceAll(u, search, rep) + ReplaceAll(v, search, rep)
    decreases |u|
  {
    var k := |search|;
    var t := u + v;
    if |u| == 0 {
      assert t == v;
    } else if |t| < k {
    } else if StartsWith(t, search) {
      assert t[|u|] == v[0];
      assert StartsWith(u, search);
      assert t[k..] == u[k..] + v;
      ReplaceSplit(u[k..], v, search, rep);
    } else {
      assert t[1..] == u[1..] + v;
      ReplaceSplit(u[1..], v, search, rep);
    }
  }

  /** When the first character of the search never appears, nothing is replaced. */
  lemma {:induction false} ReplaceAbsent(s: string, search: string, rep: string)
    requires |search| > 0
    requires forall k :: 0 <= k < |s| ==> s[k] != search[0]
    ensures ReplaceAll(s, search, rep) == s
    decreases |s|
  {
    if |s| > 0 {
      ReplaceAbsent(s[1..], search, rep);
      PeelMiss(s[0], s[1..], search, rep);
      assert s == [s[0]] + s[1..];
    }
  }

  /** Replacing a string by itself changes nothing. */
  lemma {:induction false} ReplaceBySelf(s: string, search: string)
    ensures ReplaceAll(s, search, search) == s
    decreases |s|
  {
    if |search| == 0 || |s| < |search| {
    } else if StartsWith(s, search) {
      ReplaceBySelf(s[|search|..], search);
      assert s == search + s[|search|..];
    } else {
      ReplaceBySelf(s[1..], search);
      assert s == [s[0]] + s[1..];
    }
  }

  /** Replacing a one-character search by text that does not contain that
      character leaves no occurrence of it. */
  lemma {:induction false} ReplaceCharRemoves(s: string, c: char, rep: string)
    requires forall k :: 0 <= k < |rep| ==> rep[k] != c
    ensures forall k :: 0 <= k < |ReplaceAll(s, [c], rep)| ==> ReplaceAll(s, [c], rep)[k] != c
    decreases |s|
  {
    if |s| >= 1 {
      ReplaceCharRemoves(s[1..], c, rep);
      if StartsWith(s, [c]) {
        assert s[1..] == s[|[c]|..];
      } else {
        assert s[0] != c;
      }
    }
  }
}
