/**
 The JavaScript string operations the statement builders are written with:
 `lastIndexOf`, `substr(0, n)`, appending one item plus a separator per loop
 iteration, and `Array.prototype.join`.
 */
module JsStrings {

  /** `sep` occurs in `s` starting at index `i`. */
  predicate OccursAt(s: string, sep: string, i: int) {
    0 <= i && i + |sep| <= |s| && s[i..i + |sep|] == sep
  }

  ghost predicate Contains(s: string, sep: string) {
    exists i :: OccursAt(s, sep, i)
  }

  predicate EndsWith(s: string, suffix: string) {
    |suffix| <= |s| && s[|s| - |suffix|..] == suffix
  }

  /** `s.lastIndexOf(sep)`: the greatest index at which `sep` occurs, or -1 when it does not occur. */
  function LastIndexOf(s: string, sep: string): (r: int)
    ensures r == -1 || OccursAt(s, sep, r)
    ensures forall i :: OccursAt(s, sep, i) ==> i <= r
  {
    if |sep| > |s| then -1 else SearchDown(s, sep, |s| - |sep|)
  }

  /** Scans the candidate positions `i, i - 1, ..., 0` for an occurrence of `sep`. */
  function SearchDown(s: string, sep: string, i: int): (r: int)
    requires i <= |s| - |sep|
    ensures r == -1 || (OccursAt(s, sep, r) && r <= i)
    ensures forall j :: OccursAt(s, sep, j) && j <= i ==> j <= r
    decreases i + 1
  {
    if i < 0 then -1
    else if s[i..i + |sep|] == sep then i
    else SearchDown(s, sep, i - 1)
  }

  /** `s.substr(0, n)`: JavaScript clamps a negative length to 0 and a long one to `|s|`. */
  function Substr0(s: string, n: int): (r: string)
    ensures r <= s
    ensures n <= 0 ==> r == ""
    ensures 0 <= n <= |s| ==> |r| == n
    ensures n >= |s| ==> r == s
  {
    if n <= 0 then "" else if n >= |s| then s else s[..n]
  }

  /**
   `s.substr(0, s.lastIndexOf(sep))`, the builders' way of cutting the final
   separator: everything before the last occurrence of `sep`, or the empty
   string when `sep` does not occur at all.
   */
  function TrimLast(s: string, sep: string): (r: string)
    ensures r <= s
    ensures Contains(s, sep) ==> OccursAt(s, sep, |r|) && forall i :: OccursAt(s, sep, i) ==> i <= |r|
    ensures !Contains(s, sep) ==> r == ""
  {
    Substr0(s, LastIndexOf(s, sep))
  }

  /** When `s` ends with `sep`, trimming removes exactly that trailing `sep`. */
  lemma TrimTrailing(t: string, sep: string)
    ensures TrimLast(t + sep, sep) == t
  {
    var s := t + sep;
    assert s[|t|..|t| + |sep|] == sep;
    assert OccursAt(s, sep, |t|);
    var r := TrimLast(s, sep);
    assert |r| == |t|;
    assert r == s[..|t|];
  }

  /** A separator containing a character that `s` lacks cannot occur in `s`. */
  lemma AbsentChar(s: string, sep: string, c: char)
    requires c in sep
    ensures Contains(s, sep) ==> c in s
  {
    if Contains(s, sep) {
      var i :| OccursAt(s, sep, i);
      var k :| 0 <= k < |sep| && sep[k] == c;
      assert s[i..i + |sep|][k] == s[i + k];
    }
  }

  /** Without any occurrence of the separator, trimming leaves nothing at all. */
  lemma TrimAbsent(s: string, sep: string, c: char)
    requires c in sep && c !in s
    ensures TrimLast(s, sep) == ""
  {
    AbsentChar(s, sep, c);
  }

  /** `xs.join(sep)`. */
  function Join(xs: seq<string>, sep: string): string
    decreases |xs|
  {
    if |xs| == 0 then "" else if |xs| == 1 then xs[0] else xs[0] + sep + Join(xs[1..], sep)
  }

  /** The builders' loops: `for (x of xs) acc += x + sep`. */
  function AppendEach(acc: string, xs: seq<string>, sep: string): string
    decreases |xs|
  {
    if |xs| == 0 then acc else AppendEach(acc + xs[0] + sep, xs[1..], sep)
  }

  /** A loop over a non-empty list leaves the items joined by `sep`, plus one dangling `sep`. */
  lemma {:induction false} AppendEachJoin(acc: string, xs: seq<string>, sep: string)
    requires |xs| > 0
    ensures AppendEach(acc, xs, sep) == acc + Join(xs, sep) + sep
    decreases |xs|
  {
    if |xs| > 1 {
      AppendEachJoin(acc + xs[0] + sep, xs[1..], sep);
      assert acc + xs[0] + sep + Join(xs[1..], sep) + sep == acc + (xs[0] + sep + Join(xs[1..], sep)) + sep;
    }
  }

  /** Appending then trimming the same separator yields the accumulator followed by the joined items. */
  lemma AppendTrimJoin(acc: string, xs: seq<string>, sep: string)
    requires |xs| > 0
    ensures TrimLast(AppendEach(acc, xs, sep), sep) == acc + Join(xs, sep)
  {
    AppendEachJoin(acc, xs, sep);
    TrimTrailing(acc + Join(xs, sep), sep);
  }

  lemma {:induction false} JoinEndsWithLast(xs: seq<string>, sep: string)
    requires |xs| > 0
    ensures EndsWith(Join(xs, sep), xs[|xs| - 1])
    decreases |xs|
  {
    if |xs| > 1 {
      JoinEndsWithLast(xs[1..], sep);
    }
  }

  lemma JoinLastChar(xs: seq<string>, sep: string)
    requires |xs| > 0 && |xs[|xs| - 1]| > 0
    ensures var j := Join(xs, sep); var last := xs[|xs| - 1];
      |j| > 0 && j[|j| - 1] == last[|last| - 1]
  {
    var j := Join(xs, sep);
    var last := xs[|xs| - 1];
    JoinEndsWithLast(xs, sep);
    assert j[|j| - |last|..][|last| - 1] == j[|j| - 1];
  }

  /** The last item of a join with at least two items is preceded by the separator. */
  lemma {:induction false} JoinEndsWithSepLast(xs: seq<string>, sep: string)
    requires |xs| > 1
    ensures EndsWith(Join(xs, sep), sep + xs[|xs| - 1])
    decreases |xs|
  {
    var tail := sep + xs[|xs| - 1];
    if |xs| == 2 {
      assert Join(xs[1..], sep) == xs[1];
      assert Join(xs, sep) == xs[0] + tail;
    } else {
      JoinEndsWithSepLast(xs[1..], sep);
      var j := Join(xs[1..], sep);
      var head := xs[0] + sep;
      assert Join(xs, sep) == head + j;
      assert (head + j)[|head + j| - |tail|..] == j[|j| - |tail|..];
    }
  }

  /**
   Splits `s` at every occurrence of the non-empty separator `sep`, scanning
   from the front; the inverse of joining with `sep`.
   */
  function Split(s: string, sep: string): (r: seq<string>)
    requires |sep| > 0
    ensures |r| > 0
    decreases |s|
  {
    if |s| == 0 then [""]
    else if sep <= s then [""] + Split(s[|sep|..], sep)
    else
      var rest := Split(s[1..], sep);
      [[s[0]] + rest[0]] + rest[1..]
  }

  /**
   `x` holds no `sep`, and no `sep` can start inside `x` and run past its end:
   the condition under which an item survives a join and split intact.
   */
  ghost predicate Unbroken(x: string, sep: string) {
    !Contains(x, sep) && (|x| == 0 || x[|x| - 1] !in sep)
  }

  /** An item without the separator's only character is unbroken. */
  lemma CharUnbroken(x: string, c: char)
    requires c !in x
    ensures Unbroken(x, [c])
  {
    AbsentChar(x, [c], c);
  }

  /** Whatever follows an unbroken `x`, no occurrence of `sep` starts inside `x`. */
  lemma UnbrokenPrefix(x: string, b: string, sep: string)
    requires |sep| > 0 && Unbroken(x, sep)
    ensures forall p :: 0 <= p < |x| ==> !OccursAt(x + b, sep, p)
  {
    forall p | 0 <= p < |x|
      ensures !OccursAt(x + b, sep, p)
    {
      if p + |sep| <= |x| {
        assert (x + b)[p..p + |sep|] == x[p..p + |sep|];
        assert !OccursAt(x, sep, p);
      } else if p + |sep| <= |x + b| {
        assert (x + b)[p..p + |sep|][|x| - 1 - p] == x[|x| - 1];
      }
    }
  }

  /** Text without an occurrence of `sep` joins the first piece of whatever follows it. */
  lemma {:induction false} SplitNoSep(a: string, b: string, sep: string)
    requires |sep| > 0
    requires forall p :: 0 <= p < |a| ==> !OccursAt(a + b, sep, p)
    ensures Split(a + b, sep) == [a + Split(b, sep)[0]] + Split(b, sep)[1..]
    decreases |a|
  {
    var tail := Split(b, sep);
    if |a| == 0 {
      assert a + b == b;
      assert a + tail[0] == tail[0];
      assert [tail[0]] + tail[1..] == tail;
    } else {
      var s := a + b;
      assert !OccursAt(s, sep, 0);
      assert !(sep <= s) by {
        if |sep| <= |s| {
          assert s[0..|sep|] != sep;
        }
      }
      assert s[1..] == a[1..] + b;
      forall p | 0 <= p < |a[1..]|
        ensures !OccursAt(a[1..] + b, sep, p)
      {
        assert !OccursAt(s, sep, p + 1);
        if p + |sep| <= |s[1..]| {
          assert s[p + 1..p + 1 + |sep|] == s[1..][p..p + |sep|];
        }
      }
      SplitNoSep(a[1..], b, sep);
      assert [s[0]] + (a[1..] + tail[0]) == a + tail[0];
    }
  }

  /** An occurrence of `sep` with none before it ends the first piece. */
  lemma SplitAtSep(a: string, b: string, sep: string)
    requires |sep| > 0
    requires forall p :: 0 <= p < |a| ==> !OccursAt(a + sep + b, sep, p)
    ensures Split(a + sep + b, sep) == [a] + Split(b, sep)
  {
    assert a + sep + b == a + (sep + b);
    SplitNoSep(a, sep + b, sep);
    assert (sep + b)[|sep|..] == b;
    assert sep <= sep + b;
    assert Split(sep + b, sep) == [""] + Split(b, sep);
    assert a + "" == a;
  }

  /**
   Joining is undone by splitting at the same separator, when every item is
   unbroken by it.
   */
  lemma {:induction false} SplitJoin(xs: seq<string>, sep: string)
    requires |xs| > 0 && |sep| > 0
    requires forall i :: 0 <= i < |xs| ==> Unbroken(xs[i], sep)
    ensures Split(Join(xs, sep), sep) == xs
    decreases |xs|
  {
    if |xs| == 1 {
      assert xs[0] + "" == xs[0];
      UnbrokenPrefix(xs[0], "", sep);
      SplitNoSep(xs[0], "", sep);
    } else {
      var rest := Join(xs[1..], sep);
      SplitJoin(xs[1..], sep);
      assert xs[0] + sep + rest == xs[0] + (sep + rest);
      UnbrokenPrefix(xs[0], sep + rest, sep);
      SplitAtSep(xs[0], rest, sep);
    }
  }
}
