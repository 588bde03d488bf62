/** Filesystem paths and the string joining and splitting that turn folder
    names into URL paths. */
module Paths {
  import opened Wrappers

  /** A filesystem path, as the sequence of its names from the first to the
      last (`["content", "blog", "_index.md"]`). The empty sequence is the
      one path that has no parent. */
  type FilePath = seq<string>

  /** `Path::parent`: the path without its last name, or None when there is
      no last name to drop. */
  function Parent(p: FilePath): (r: Option<FilePath>)
    ensures r.None? <==> p == []
    ensures r.Some? ==> r.value + [p[|p| - 1]] == p
  {
    if p == [] then None else Some(p[..|p| - 1])
  }

  /** `[T]::join(sep)`: the parts in order with `sep` between neighbours. */
  function Join(parts: seq<string>, sep: string): string
  {
    if |parts| == 0 then ""
    else if |parts| == 1 then parts[0]
    else parts[0] + sep + Join(parts[1..], sep)
  }

  /** `str::split(d)`: the maximal runs of the string between occurrences of
      `d`, in order; the empty string splits into one empty run. This is a
      reference definition used to state what joining with "/" preserves. */
  function Split(s: string, d: char): (r: seq<string>)
    ensures |r| >= 1
    ensures forall i :: 0 <= i < |r| ==> d !in r[i]
    decreases |s|
  {
    if |s| == 0 then [""]
    else if s[0] == d then [""] + Split(s[1..], d)
    else
      var rest := Split(s[1..], d);
      [[s[0]] + rest[0]] + rest[1..]
  }

  /** A string without the delimiter splits into itself alone. */
  lemma {:induction false} SplitWithoutDelimiter(c: string, d: char)
    requires d !in c
    ensures Split(c, d) == [c]
    decreases |c|
  {
    if |c| > 0 {
      SplitWithoutDelimiter(c[1..], d);
      assert [c[0]] + c[1..] == c;
    }
  }

  /** A delimiter-free prefix followed by the delimiter splits off as the
      first run. */
  lemma {:induction false} SplitAfterRun(c: string, t: string, d: char)
    requires d !in c
    ensures Split(c + [d] + t, d) == [c] + Split(t, d)
    decreases |c|
  {
    var s := c + [d] + t;
    if |c| == 0 {
      assert s[0] == d && s[1..] == t;
    } else {
      assert s[0] == c[0] && s[1..] == c[1..] + [d] + t;
      SplitAfterRun(c[1..], t, d);
      assert [c[0]] + c[1..] == c;
    }
  }

  /** Splitting a join gives back the parts, provided there is at least one
      part and no part contains the delimiter. */
  lemma {:induction false} SplitJoin(parts: seq<string>, d: char)
    requires parts != []
    requires forall i :: 0 <= i < |parts| ==> d !in parts[i]
    ensures Split(Join(parts, [d]), d) == parts
  {
    if |parts| == 1 {
      SplitWithoutDelimiter(parts[0], d);
    } else {
      SplitJoin(parts[1..], d);
      SplitAfterRun(parts[0], Join(parts[1..], [d]), d);
      assert [parts[0]] + parts[1..] == parts;
    }
  }

  /** Joining the runs of a split gives back the string, for every string. */
  lemma {:induction false} JoinSplit(s: string, d: char)
    ensures Join(Split(s, d), [d]) == s
    decreases |s|
  {
    if |s| > 0 {
      var rest := Split(s[1..], d);
      JoinSplit(s[1..], d);
      if s[0] == d {
        assert Split(s, d) == [""] + rest;
        assert ([""] + rest)[1..] == rest;
        assert [s[0]] + s[1..] == s;
      } else {
        var r := Split(s, d);
        assert r == [[s[0]] + rest[0]] + rest[1..];
        assert r[1..] == rest[1..];
        assert [s[0]] + s[1..] == s;
        if |rest| > 1 {
          assert Join(rest, [d]) == rest[0] + [d] + Join(rest[1..], [d]);
        }
      }
    }
  }
}
