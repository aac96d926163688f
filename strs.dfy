/**
  The two functions of Go's `strings` package that the proxy relies on,
  specialised to a one-character separator: `strings.Split` (used on the
  backend list) and `strings.Join` (used on configuration arrays).
 */
module Strs {

  /** The summed lengths of the parts. */
  function TotalLength(parts: seq<string>): nat
    decreases |parts|
  {
    if parts == [] then 0 else |parts[0]| + TotalLength(parts[1..])
  }

  /** No element of `parts` contains the separator. */
  predicate NoSeparator(parts: seq<string>, sep: char)
  {
    forall i :: 0 <= i < |parts| ==> sep !in parts[i]
  }

  /**
    strings.Join: the parts in order, with one `sep` between neighbours. The
    result is as long as the parts plus one separator per gap.
   */
  function Join(parts: seq<string>, sep: char): (s: string)
    ensures parts == [] ==> s == []
    ensures |parts| == 1 ==> s == parts[0]
    ensures |parts| >= 1 ==> |s| == TotalLength(parts) + |parts| - 1
    decreases |parts|
  {
    if parts == [] then ""
    else if |parts| == 1 then parts[0]
    else parts[0] + [sep] + Join(parts[1..], sep)
  }

  /** Separator-free parts are joined with exactly one separator per gap. */
  lemma {:induction false} JoinSeparatorCount(parts: seq<string>, sep: char)
    requires |parts| >= 1 && NoSeparator(parts, sep)
    ensures multiset(Join(parts, sep))[sep] == |parts| - 1
    decreases |parts|
  {
    if |parts| == 1 {
      assert sep !in parts[0];
    } else {
      var rest := parts[1..];
      assert NoSeparator(rest, sep) by {
        forall i | 0 <= i < |rest| ensures sep !in rest[i] {
          assert rest[i] == parts[i + 1];
        }
      }
      JoinSeparatorCount(rest, sep);
      assert sep !in parts[0];
      assert multiset(parts[0] + [sep] + Join(rest, sep))
          == multiset(parts[0]) + multiset([sep]) + multiset(Join(rest, sep));
    }
  }

  /** Where part `i` starts in the joined string: the parts before it and one separator each. */
  function Offset(parts: seq<string>, i: nat): nat
    requires i <= |parts|
  {
    TotalLength(parts[..i]) + i
  }

  /**
    The joined string, position by position: part `i` sits at `Offset(parts, i)`,
    followed by the separator unless it is the last part. Together with the
    length in Join's contract this determines the whole string.
   */
  lemma {:induction false} JoinAt(parts: seq<string>, sep: char, i: nat)
    requires i < |parts|
    ensures Offset(parts, i) + |parts[i]| <= |Join(parts, sep)|
    ensures i < |parts| - 1 ==> Offset(parts, i) + |parts[i]| < |Join(parts, sep)|
    ensures Join(parts, sep)[Offset(parts, i)..Offset(parts, i) + |parts[i]|] == parts[i]
    ensures i < |parts| - 1 ==> Join(parts, sep)[Offset(parts, i) + |parts[i]|] == sep
    decreases i
  {
    assert parts[..0] == [];
    if |parts| > 1 {
      var rest := parts[1..];
      var s, t := Join(parts, sep), Join(rest, sep);
      var base := |parts[0]| + 1;
      assert s == parts[0] + [sep] + t;
      if i > 0 {
        JoinAt(rest, sep, i - 1);
        OffsetStep(parts, i);
        assert rest[i - 1] == parts[i];
        SliceOfSuffix(s, base, t, Offset(rest, i - 1), |parts[i]|);
      }
    }
  }

  lemma OffsetStep(parts: seq<string>, i: nat)
    requires 0 < i <= |parts|
    ensures Offset(parts, i) == |parts[0]| + 1 + Offset(parts[1..], i - 1)
  {
    assert parts[..i][0] == parts[0];
    assert parts[..i][1..] == parts[1..][..i - 1];
  }

  lemma SliceOfSuffix(s: string, base: nat, t: string, o: nat, len: nat)
    requires base <= |s| && s[base..] == t && o + len <= |t|
    ensures s[base + o..base + o + len] == t[o..o + len]
    ensures o + len < |t| ==> s[base + o + len] == t[o + len]
  {
    var inS, inT := s[base + o..base + o + len], t[o..o + len];
    forall k | 0 <= k < |inS| ensures inS[k] == inT[k] {
      assert s[base + o + k] == t[o + k];
    }
  }

  /**
    strings.Split with a non-empty separator: the maximal separator-free
    pieces of `s`, in order. The empty string splits into one empty piece.
   */
  function Split(s: string, sep: char): (parts: seq<string>)
    ensures 1 <= |parts| <= |s| + 1
    ensures NoSeparator(parts, sep)
    decreases |s|
  {
    if s == [] then [""]
    else
      var rest := Split(s[1..], sep);
      if s[0] == sep then [""] + rest
      else [[s[0]] + rest[0]] + rest[1..]
  }

  /** Joining the pieces of a split gives back the original string. */
  lemma {:induction false} JoinSplit(s: string, sep: char)
    ensures Join(Split(s, sep), sep) == s
    decreases |s|
  {
    if s != [] {
      var rest := Split(s[1..], sep);
      JoinSplit(s[1..], sep);
      if s[0] == sep {
        assert Split(s, sep) == [""] + rest;
        assert ([""] + rest)[1..] == rest;
        assert Join([""] + rest, sep) == "" + [sep] + Join(rest, sep);
        assert s == [s[0]] + s[1..];
      } else {
        var head := [s[0]] + rest[0];
        assert Split(s, sep) == [head] + rest[1..];
        if |rest| == 1 {
          assert Join(rest, sep) == rest[0];
          assert s == [s[0]] + s[1..];
        } else {
          assert ([head] + rest[1..])[1..] == rest[1..];
          assert Join(rest, sep) == rest[0] + [sep] + Join(rest[1..], sep);
          assert s == [s[0]] + s[1..];
        }
      }
    }
  }

  /** Splitting a separator-free prefix `a` glued to `r` extends the first piece of `r`. */
  lemma {:induction false} SplitPrefix(a: string, r: string, sep: char)
    requires sep !in a
    ensures Split(a + r, sep) == [a + Split(r, sep)[0]] + Split(r, sep)[1..]
    decreases |a|
  {
    if a != [] {
      assert (a + r)[1..] == a[1..] + r;
      assert (a + r)[0] == a[0];
      SplitPrefix(a[1..], r, sep);
      assert [a[0]] + (a[1..] + Split(r, sep)[0]) == a + Split(r, sep)[0];
    } else {
      var pr := Split(r, sep);
      assert a + r == r;
      assert a + pr[0] == pr[0];
      assert pr == [pr[0]] + pr[1..];
    }
  }

  /** Splitting the join of one or more separator-free parts (any of them may be empty) gives the parts back. */
  lemma {:induction false} SplitJoin(parts: seq<string>, sep: char)
    requires |parts| >= 1
    requires NoSeparator(parts, sep)
    ensures Split(Join(parts, sep), sep) == parts
    decreases |parts|
  {
    if |parts| == 1 {
      SplitPrefix(parts[0], "", sep);
      assert parts[0] + "" == parts[0];
    } else {
      var tail := Join(parts[1..], sep);
      SplitJoin(parts[1..], sep);
      assert (parts[0] + [sep] + tail) == parts[0] + ([sep] + tail);
      SplitPrefix(parts[0], [sep] + tail, sep);
      assert ([sep] + tail)[1..] == tail;
      assert Split([sep] + tail, sep) == [""] + parts[1..];
      assert parts[0] + "" == parts[0];
      assert parts == [parts[0]] + parts[1..];
    }
  }

  /** A string without the separator is its own single piece. */
  lemma SplitWithoutSeparator(s: string, sep: char)
    requires sep !in s
    ensures Split(s, sep) == [s]
  {
    SplitPrefix(s, "", sep);
    assert s + "" == s;
  }
}
