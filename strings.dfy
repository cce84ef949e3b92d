/**
 * The string operations from Rust's standard library that the broker's request
 * path relies on: `str::split` with a one-character pattern, `[String]::join`,
 * `str::starts_with`, and `str::replace` with an empty replacement.
 */
module Strings {

  /** `s.split(c)`: the pieces of `s` between occurrences of `c`, in order.
      As in Rust, there is always at least one piece (`"".split(c)` is `[""]`). */
  function Split(s: string, c: char): (pieces: seq<string>)
    ensures |pieces| >= 1
    ensures forall i :: 0 <= i < |pieces| ==> c !in pieces[i]
    decreases |s|
  {
    if |s| == 0 then [""]
    else
      var rest := Split(s[1..], c);
      if s[0] == c then [""] + rest
      else [[s[0]] + rest[0]] + rest[1..]
  }

  /** The number of characters in all of `parts` together. */
  function TotalLength(parts: seq<string>): nat
    decreases |parts|
  {
    if |parts| == 0 then 0 else |parts[0]| + TotalLength(parts[1..])
  }

  /** `parts.join(sep)`: the parts with `sep` between neighbours; `""` for no parts.
      The text starts with the first part and holds every character of the
      parts plus one `sep` between each two neighbours. */
  function Join(parts: seq<string>, sep: string): (r: string)
    ensures |parts| == 0 ==> r == ""
    ensures |parts| > 0 ==> StartsWith(r, parts[0])
    ensures |parts| > 0 ==> |r| == TotalLength(parts) + (|parts| - 1) * |sep|
    decreases |parts|
  {
    if |parts| == 0 then ""
    else if |parts| == 1 then parts[0]
    else parts[0] + sep + Join(parts[1..], sep)
  }

  /** `s.starts_with(p)`. */
  predicate StartsWith(s: string, p: string) {
    |p| <= |s| && s[..|p|] == p
  }

  /** `s` starts with `p` exactly when `s` is `p` followed by something. */
  lemma StartsWithIsPrefix(s: string, p: string)
    ensures StartsWith(s, p) <==> exists t :: s == p + t
  {
    if StartsWith(s, p) {
      assert s == p + s[|p|..];
    }
  }

  /** `p` occurs somewhere in `s`. */
  predicate Occurs(s: string, p: string)
    decreases |s|
  {
    StartsWith(s, p) || (|s| > 0 && Occurs(s[1..], p))
  }

  /** `s.replace(p, "")`: every non-overlapping occurrence of `p`, found from
      the left, is deleted, not only a leading one. The text never grows, and
      it shrinks by at least `p` when `p` occurs in it. */
  function RemoveAll(s: string, p: string): (r: string)
    requires |p| > 0
    ensures |r| <= |s|
    ensures Occurs(s, p) ==> |r| <= |s| - |p|
    decreases |s|
  {
    if |s| < |p| then ShortAbsent(s, p); s
    else if s[..|p|] == p then RemoveAll(s[|p|..], p)
    else [s[0]] + RemoveAll(s[1..], p)
  }

  /** A text shorter than a pattern does not contain it. */
  lemma {:induction false} ShortAbsent(s: string, p: string)
    requires |s| < |p|
    ensures !Occurs(s, p)
    decreases |s|
  {
    if |s| > 0 {
      ShortAbsent(s[1..], p);
    }
  }

  /** Joining the pieces of a split with the separator gives back the original text. */
  lemma {:induction false} JoinSplit(s: string, c: char)
    ensures Join(Split(s, c), [c]) == s
    decreases |s|
  {
    if |s| > 0 {
      var rest := Split(s[1..], c);
      JoinSplit(s[1..], c);
      if s[0] == c {
        assert Split(s, c) == [""] + rest;
        assert ([""] + rest)[1..] == rest;
        assert Join(Split(s, c), [c]) == "" + [c] + Join(rest, [c]);
        assert s == [c] + s[1..];
      } else if |rest| == 1 {
        assert Split(s, c) == [[s[0]] + rest[0]];
        assert s == [s[0]] + s[1..];
      } else {
        var first := [s[0]] + rest[0];
        assert Split(s, c) == [first] + rest[1..];
        assert ([first] + rest[1..])[1..] == rest[1..];
        assert Join(rest, [c]) == rest[0] + [c] + Join(rest[1..], [c]);
        assert s == [s[0]] + s[1..];
      }
    }
  }

  /** A text without the separator is a single piece. */
  lemma {:induction false} SplitWithout(a: string, c: char)
    requires c !in a
    ensures Split(a, c) == [a]
    decreases |a|
  {
    if |a| > 0 {
      assert c !in a[1..] by {
        forall x | x in a[1..] ensures x in a { }
      }
      SplitWithout(a[1..], c);
      assert a == [a[0]] + a[1..];
    }
  }

  /** Splitting a text that starts with a separator-free piece followed by the
      separator yields that piece first, then the pieces of the remainder. */
  lemma {:induction false} SplitAfterPiece(a: string, c: char, b: string)
    requires c !in a
    ensures Split(a + [c] + b, c) == [a] + Split(b, c)
    decreases |a|
  {
    if |a| == 0 {
      assert a + [c] + b == [c] + b;
      assert ([c] + b)[1..] == b;
    } else {
      var s := a + [c] + b;
      assert s[1..] == a[1..] + [c] + b;
      assert c !in a[1..] by {
        forall x | x in a[1..] ensures x in a { }
      }
      SplitAfterPiece(a[1..], c, b);
      assert s[0] == a[0] && a[0] != c;
      assert a == [a[0]] + a[1..];
    }
  }

  /** Splitting undoes joining, when no part contains the separator. */
  lemma {:induction false} SplitJoin(parts: seq<string>, c: char)
    requires |parts| >= 1
    requires forall i :: 0 <= i < |parts| ==> c !in parts[i]
    ensures Split(Join(parts, [c]), c) == parts
    decreases |parts|
  {
    if |parts| == 1 {
      SplitWithout(parts[0], c);
    } else {
      SplitJoin(parts[1..], c);
      SplitAfterPiece(parts[0], c, Join(parts[1..], [c]));
      assert parts == [parts[0]] + parts[1..];
    }
  }

  /** A split gives more than one piece exactly when the separator occurs. */
  lemma {:induction false} SplitIsSingle(s: string, c: char)
    ensures |Split(s, c)| == 1 <==> c !in s
    decreases |s|
  {
    if c !in s {
      SplitWithout(s, c);
    } else {
      JoinSplit(s, c);
    }
  }

  /** Deleting a pattern that does not occur leaves the text as it is. */
  lemma {:induction false} RemoveAllAbsent(s: string, p: string)
    requires |p| > 0
    requires !Occurs(s, p)
    ensures RemoveAll(s, p) == s
    decreases |s|
  {
    if |s| >= |p| {
      RemoveAllAbsent(s[1..], p);
      assert s == [s[0]] + s[1..];
    }
  }

  /** Once a leading part `a` is passed in which `p` does not start, the next
      `p` is deleted, and so on after it: `replace` deletes every later
      occurrence, not just the first. `p` does not start anywhere in `a` exactly
      when `a` followed by all but the last character of `p` holds no `p`. */
  lemma {:induction false} RemoveAllAfterFirst(a: string, p: string, b: string)
    requires |p| > 0 && !Occurs(a + p[..|p| - 1], p)
    ensures RemoveAll(a + p + b, p) == a + RemoveAll(b, p)
    decreases |a|
  {
    var s := a + p + b;
    if |a| == 0 {
      assert s == p + b;
      assert s[..|p|] == p && s[|p|..] == b;
    } else {
      NoMatchBefore(a, p, b);
      RemoveAllAfterFirst(a[1..], p, b);
      assert RemoveAll(s, p) == [a[0]] + RemoveAll(a[1..] + p + b, p);
      assert a == [a[0]] + a[1..];
    }
  }

  /** The step of RemoveAllAfterFirst: `p` does not start at the head of the
      text, and the part after that head still holds no start of `p`. */
  lemma NoMatchBefore(a: string, p: string, b: string)
    requires |p| > 0 && |a| > 0 && !Occurs(a + p[..|p| - 1], p)
    ensures (a + p + b)[..|p|] != p
    ensures !Occurs(a[1..] + p[..|p| - 1], p)
    ensures (a + p + b)[1..] == a[1..] + p + b
  {
    var q := a + p[..|p| - 1];
    assert |q| >= |p| && !StartsWith(q, p);
    assert (a + p + b)[..|p|] != p by {
      assert (a + p + b)[..|p|] == q[..|p|];
    }
    assert !Occurs(a[1..] + p[..|p| - 1], p) by {
      assert |q| > 0 && !Occurs(q[1..], p);
      assert q[1..] == a[1..] + p[..|p| - 1];
    }
  }

  /** When a text starts with a pattern that does not occur in the rest, deleting
      every occurrence amounts to stripping the leading one. */
  lemma StripLeading(s: string, p: string)
    requires |p| > 0
    requires StartsWith(s, p) && !Occurs(s[|p|..], p)
    ensures RemoveAll(s, p) == s[|p|..]
  {
    RemoveAllAbsent(s[|p|..], p);
  }
}
