/**
 * The string operations the plugin relies on: ordinal substring search
 * (`string.Contains`), joining with a separator (`string.Join("\n", ...)`)
 * and, as the inverse that shows a joined message loses nothing, splitting
 * at line breaks.
 */
module Text {

  /** `needle` occurs in `hay` starting at index `i`. */
  ghost predicate OccursAt(needle: string, hay: string, i: int) {
    0 <= i && i + |needle| <= |hay| && hay[i..i + |needle|] == needle
  }

  /** `needle` occurs in `hay` at some position (ordinal, case-sensitive). */
  ghost predicate IsSubstring(needle: string, hay: string) {
    exists i :: OccursAt(needle, hay, i)
  }

  /** `hay.Contains(needle)`: the empty needle is contained in every string. */
  function Contains(hay: string, needle: string): (r: bool)
    ensures r <==> IsSubstring(needle, hay)
    decreases |hay|
  {
    if needle <= hay then
      assert OccursAt(needle, hay, 0);
      true
    else if |hay| == 0 then
      false
    else
      var r := Contains(hay[1..], needle);
      if r then
        assert forall i :: OccursAt(needle, hay[1..], i) ==> OccursAt(needle, hay, i + 1);
        true
      else
        assert forall i :: OccursAt(needle, hay, i) ==> i == 0 || OccursAt(needle, hay[1..], i - 1);
        false
  }

  /** `string.Join(sep, xs)` */
  function Join(sep: string, xs: seq<string>): (r: string)
    ensures xs == [] ==> r == ""
    ensures |xs| == 1 ==> r == xs[0]
  {
    if xs == [] then ""
    else if |xs| == 1 then xs[0]
    else xs[0] + sep + Join(sep, xs[1..])
  }

  /** Splits `s` at every line break; there is always at least one piece. */
  function SplitLines(s: string): (r: seq<string>)
    ensures |r| >= 1
  {
    if s == [] then [""]
    else
      var rest := SplitLines(s[1..]);
      if s[0] == '\n' then [""] + rest
      else [[s[0]] + rest[0]] + rest[1..]
  }

  ghost predicate NoLineBreak(s: string) {
    '\n' !in s
  }

  lemma {:induction false} SplitLinesSingle(a: string)
    requires NoLineBreak(a)
    ensures SplitLines(a) == [a]
  {
    if a != [] {
      SplitLinesSingle(a[1..]);
      assert [a[0]] + a[1..] == a;
    }
  }

  lemma {:induction false} SplitLinesAfter(a: string, rest: string)
    requires NoLineBreak(a)
    ensures SplitLines(a + "\n" + rest) == [a] + SplitLines(rest)
  {
    if a == [] {
      assert a + "\n" + rest == "\n" + rest;
      assert ("\n" + rest)[1..] == rest;
    } else {
      var s := a + "\n" + rest;
      assert s[0] == a[0];
      assert s[1..] == a[1..] + "\n" + rest;
      SplitLinesAfter(a[1..], rest);
      assert [a[0]] + a[1..] == a;
    }
  }

  /**
   * A non-empty list of lines without line breaks survives being joined with
   * "\n" and split again.
   */
  lemma {:induction false} SplitJoinLines(xs: seq<string>)
    requires |xs| >= 1
    requires forall i :: 0 <= i < |xs| ==> NoLineBreak(xs[i])
    ensures SplitLines(Join("\n", xs)) == xs
  {
    if |xs| == 1 {
      SplitLinesSingle(xs[0]);
    } else {
      SplitJoinLines(xs[1..]);
      SplitLinesAfter(xs[0], Join("\n", xs[1..]));
      assert [xs[0]] + xs[1..] == xs;
    }
  }
}
