/** Reading an hours cell such as "9am-5pm" with `split("-")`: the start is
    the text before the first '-', the end the text between the first and the
    second '-', and there is no end when the text holds no '-' at all. */
module HoursText {
  import opened Wrappers

  /** `{start, end}` as the library builds it from a split; an absent `end`
      is JavaScript's `undefined`. */
  datatype Hours = Hours(start: string, end: Option<string>)

  /** The text before the first '-' of `s`, or all of `s` if it has none. */
  function UpToDash(s: string): (p: string)
    ensures |p| <= |s| && p == s[..|p|]
    ensures '-' !in p
    ensures |p| < |s| ==> s[|p|] == '-'
  {
    if s == [] || s[0] == '-' then [] else [s[0]] + UpToDash(s[1..])
  }

  /** Pieces 0 and 1 of `s.split("-")`. */
  function SplitHours(s: string): (h: Hours)
    ensures '-' !in h.start
    ensures h.end.None? <==> '-' !in s
    ensures h.end.None? ==> h.start == s
    ensures h.end.Some? ==> '-' !in h.end.value
    ensures h.end.Some? ==>
      var joined := h.start + "-" + h.end.value;
      |joined| <= |s| && joined == s[..|joined|] && (|joined| < |s| ==> s[|joined|] == '-')
  {
    var start := UpToDash(s);
    if |start| == |s| then
      assert start == s;
      Hours(start, None)
    else
      var rest := s[|start| + 1..];
      var end := UpToDash(rest);
      assert s[..|start| + 1 + |end|] == start + "-" + end by {
        assert s[..|start| + 1 + |end|] == s[..|start|] + [s[|start|]] + rest[..|end|];
      }
      Hours(start, Some(end))
  }

  /** The text an `Hours` value is written as: "start-end", or just "start". */
  function JoinHours(h: Hours): string
  {
    match h.end
    case None => h.start
    case Some(e) => h.start + "-" + e
  }

  /** A text with at most one '-'. */
  predicate AtMostOneDash(s: string)
  {
    forall i, j :: 0 <= i < j < |s| ==> s[i] != '-' || s[j] != '-'
  }

  /** Splitting a text with at most one '-' loses nothing. */
  lemma JoinSplit(s: string)
    requires AtMostOneDash(s)
    ensures JoinHours(SplitHours(s)) == s
  {
    var h := SplitHours(s);
    if h.end.Some? {
      assert s[|h.start|] == '-';
    }
  }

  /** Hours whose start and end hold no '-' come back unchanged from a split
      of their text. */
  lemma SplitJoin(h: Hours)
    requires '-' !in h.start
    requires h.end.Some? ==> '-' !in h.end.value
    ensures SplitHours(JoinHours(h)) == h
  {
    var s := JoinHours(h);
    match h.end
    case None =>
    case Some(e) =>
      assert s[|h.start|] == '-';
      var p := UpToDash(s);
      assert p == h.start;
      assert s[|p| + 1..] == e;
      assert UpToDash(e) == e;
      assert SplitHours(s) == Hours(p, Some(e));
  }
}
