/** Python's `str.split(sep)` for a one-character separator and `sep.join(parts)`. */
module Strings {

  /** `sep.join(parts)`: the parts with `sep` between neighbours. */
  function Join(parts: seq<string>, sep: string): string
  {
    if parts == [] then ""
    else if |parts| == 1 then parts[0]
    else parts[0] + sep + Join(parts[1..], sep)
  }

  /** `s.split(d)`: the maximal runs of non-`d` characters between separators,
      empty runs included; never an empty list. */
  function Split(s: string, d: char): (parts: seq<string>)
    ensures |parts| >= 1
  {
    if s == [] then [""]
    else
      var rest := Split(s[1..], d);
      if s[0] == d then [""] + rest else [[s[0]] + rest[0]] + rest[1..]
  }

  /** Joining the parts of a split with the separator gives the string back. */
  lemma {:induction false} JoinSplit(s: string, d: char)
    ensures Join(Split(s, d), [d]) == s
  {
    if s != [] {
      var rest := Split(s[1..], d);
      JoinSplit(s[1..], d);
      if s[0] == d {
        assert Split(s, d) == [""] + rest;
        assert s == [d] + s[1..];
      } else {
        var parts := Split(s, d);
        assert parts[1..] == rest[1..];
        if |rest| == 1 {
          assert s == [s[0]] + s[1..];
        } else {
          assert Join(rest, [d]) == rest[0] + [d] + Join(rest[1..], [d]);
          assert s == [s[0]] + s[1..];
        }
      }
    }
  }

  /** No part of a split contains the separator. */
  lemma {:induction false} SplitPartsFree(s: string, d: char)
    ensures forall p :: p in Split(s, d) ==> d !in p
  {
    if s != [] {
      SplitPartsFree(s[1..], d);
      var rest := Split(s[1..], d);
      if s[0] != d {
        assert forall p :: p in rest[1..] ==> p in rest;
        assert d !in rest[0];
      }
    }
  }

  /** Splitting a join of separator-free parts gives the parts back. */
  lemma {:induction false} SplitJoin(parts: seq<string>, d: char)
    requires |parts| >= 1
    requires forall i :: 0 <= i < |parts| ==> d !in parts[i]
    ensures Split(Join(parts, [d]), d) == parts
  {
    if |parts| == 1 {
      SplitWord(parts[0], [], d);
      assert parts[0] + [] == parts[0];
      assert Split([], d) == [""];
    } else {
      SplitJoin(parts[1..], d);
      var tail := Join(parts[1..], [d]);
      assert Join(parts, [d]) == parts[0] + ([d] + tail);
      SplitWord(parts[0], [d] + tail, d);
      assert ([d] + tail)[1..] == tail;
      assert Split([d] + tail, d) == [""] + parts[1..];
      assert parts[0] + "" == parts[0];
      assert parts == [parts[0]] + parts[1..];
    }
  }

  /** A separator-free prefix sticks to the first part of the rest's split. */
  lemma {:induction false} SplitWord(w: string, rest: string, d: char)
    requires d !in w
    ensures var r := Split(rest, d);
      Split(w + rest, d) == [w + r[0]] + r[1..]
  {
    var r := Split(rest, d);
    if w == [] {
      assert w + rest == rest;
      assert w + r[0] == r[0];
      assert r == [r[0]] + r[1..];
    } else {
      SplitWord(w[1..], rest, d);
      assert (w + rest)[0] == w[0];
      assert (w + rest)[1..] == w[1..] + rest;
      var big := Split(w[1..] + rest, d);
      assert big == [w[1..] + r[0]] + r[1..];
      assert Split(w + rest, d) == [[w[0]] + big[0]] + big[1..];
      assert [w[0]] + (w[1..] + r[0]) == w + r[0];
    }
  }

  /** The first part of `s.split(d)` is the text before the first `d`, or the
      whole of `s` when it holds no `d`. */
  lemma {:induction false} FirstPart(s: string, d: char)
    ensures var p := Split(s, d)[0];
      && |p| <= |s| && s[..|p|] == p
      && d !in p
      && (d in s <==> |p| < |s|)
      && (|p| < |s| ==> s[|p|] == d)
  {
    if s != [] {
      FirstPart(s[1..], d);
      if s[0] != d {
        var p := Split(s, d)[0];
        var q := Split(s[1..], d)[0];
        assert p == [s[0]] + q;
        assert s == [s[0]] + s[1..];
        assert d in s <==> d in s[1..];
      }
    }
  }
}
