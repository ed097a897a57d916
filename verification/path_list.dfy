/** The path_list renderer: "/" for the empty list, otherwise "/" before every
    segment in list order. */
module PathList {

  /** A name a directory entry can carry: not empty and free of '/'. */
  predicate ValidName(name: string) {
    |name| > 0 && '/' !in name
  }

  predicate AllValid(segments: seq<string>) {
    forall i :: 0 <= i < |segments| ==> ValidName(segments[i])
  }

  /** Every segment preceded by '/', in order; "" for no segments. */
  function Slashed(segments: seq<string>): string
    decreases |segments|
  {
    if segments == [] then "" else "/" + segments[0] + Slashed(segments[1..])
  }

  /** The text operator<< writes for a path_list. */
  function Render(list: seq<string>): string {
    if list == [] then "/" else Slashed(list)
  }

  /** operator<<: write '/' and then each element, or a lone '/' for an empty list. */
  method WritePath(list: seq<string>) returns (out: string)
    ensures out == Render(list)
  {
    if list == [] {
      return "/";
    }
    out := "";
    for i := 0 to |list|
      invariant out == Slashed(list[..i])
    {
      SlashedSnoc(list[..i], list[i]);
      assert list[..i + 1] == list[..i] + [list[i]];
      out := out + "/" + list[i];
    }
    assert list[..|list|] == list;
  }

  /** Writing one more segment appends "/" and that segment. */
  lemma {:induction false} SlashedSnoc(segments: seq<string>, last: string)
    ensures Slashed(segments + [last]) == Slashed(segments) + "/" + last
    decreases |segments|
  {
    if segments == [] {
      assert [] + [last] == [last];
    } else {
      assert (segments + [last])[1..] == segments[1..] + [last];
      SlashedSnoc(segments[1..], last);
    }
  }

  /** The number of characters before the first '/' (or the end). */
  function NameLength(s: string): (n: nat)
    ensures n <= |s|
    ensures forall k :: 0 <= k < n ==> s[k] != '/'
    ensures n < |s| ==> s[n] == '/'
    decreases |s|
  {
    if s == [] || s[0] == '/' then 0 else 1 + NameLength(s[1..])
  }

  /** The segments of a text of the form "/name/name...", read back. */
  function Unslash(s: string): seq<string>
    decreases |s|
  {
    if s == [] || s[0] != '/' then []
    else
      var n := NameLength(s[1..]);
      [s[1..1 + n]] + Unslash(s[1 + n..])
  }

  /** The segments of an absolute path. */
  function ParsePath(path: string): seq<string> {
    if path == "/" then [] else Unslash(path)
  }

  lemma {:induction false} UnslashSlashed(segments: seq<string>)
    requires AllValid(segments)
    ensures Unslash(Slashed(segments)) == segments
    decreases |segments|
  {
    if segments != [] {
      var x, rest := segments[0], Slashed(segments[1..]);
      var s := Slashed(segments);
      assert s == "/" + x + rest;
      assert s[1..] == x + rest;
      assert ValidName(x);
      NameLengthOf(x, rest);
      assert s[1..1 + |x|] == x;
      assert s[1 + |x|..] == rest;
      UnslashSlashed(segments[1..]);
    }
  }

  /** A name followed by "" or by a text that starts with '/' is read back whole. */
  lemma {:induction false} NameLengthOf(x: string, rest: string)
    requires '/' !in x
    requires rest == [] || rest[0] == '/'
    ensures NameLength(x + rest) == |x|
    decreases |x|
  {
    if x == [] {
      assert x + rest == rest;
    } else {
      assert x[0] in x;
      assert (x + rest)[1..] == x[1..] + rest;
      NameLengthOf(x[1..], rest);
    }
  }

  /** Rendering loses nothing: the segments can be read back from the path. */
  lemma RenderRoundTrip(list: seq<string>)
    requires AllValid(list)
    ensures ParsePath(Render(list)) == list
  {
    if list != [] {
      assert Render(list) == "/" + list[0] + Slashed(list[1..]);
      assert ValidName(list[0]);
      assert |Render(list)| > 1;
      UnslashSlashed(list);
    }
  }

  /** The empty list is the root, "/". */
  lemma RenderRoot(list: seq<string>)
    requires AllValid(list)
    ensures Render(list) == "/" <==> list == []
  {
  }

  /** Non-empty lists render without a trailing slash, and every rendering
      starts with one. */
  lemma {:induction false} RenderEnds(list: seq<string>)
    requires AllValid(list)
    ensures |Render(list)| > 0 && Render(list)[0] == '/'
    ensures list != [] ==> Render(list)[|Render(list)| - 1] != '/'
    decreases |list|
  {
    if list != [] {
      var x, rest := list[0], Slashed(list[1..]);
      assert ValidName(x);
      var r := Render(list);
      assert r == "/" + x + rest;
      if list[1..] == [] {
        assert r[|r| - 1] == x[|x| - 1];
        assert x[|x| - 1] in x;
      } else {
        RenderEnds(list[1..]);
        assert r[|r| - 1] == rest[|rest| - 1];
      }
    }
  }

  /** The nested directories a/b/c render as "/a/b/c". */
  lemma RenderThreeLevels()
    ensures Render(["a", "b", "c"]) == "/a/b/c"
  {
  }
}
