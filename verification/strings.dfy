/**
 Models of the two string primitives of Go's `strings` package that the
 confidential-compute rule uses: `Split` with a one-character separator and
 `Contains`. Each is tied to an independent reference definition, by its own
 contract or by round-trip lemmas.
 */
module Strings {

  /** `sub` starts at position `i` of `s`. */
  predicate OccursAt(sub: string, s: string, i: int)
  {
    0 <= i <= |s| - |sub| && s[i..i + |sub|] == sub
  }

  /** `sub` occurs as a contiguous block somewhere in `s`. */
  ghost predicate Occurs(sub: string, s: string)
  {
    exists i :: OccursAt(sub, s, i)
  }

  /** Number of occurrences of the character `c` in `s`. */
  function Count(s: string, c: char): nat
  {
    if |s| == 0 then 0 else (if s[0] == c then 1 else 0) + Count(s[1..], c)
  }

  /** `strings.Contains(s, sub)`: scans `s` from the left for a position where
      `sub` starts, and so finds `sub` exactly when it occurs somewhere in `s`. */
  function Contains(s: string, sub: string): (found: bool)
    ensures found <==> Occurs(sub, s)
    decreases |s|
  {
    if sub <= s then
      assert OccursAt(sub, s, 0);
      true
    else if |s| == 0 then
      assert |sub| > 0;
      false
    else
      OccursStep(sub, s);
      Contains(s[1..], sub)
  }

  /** `strings.Split(s, string(sep))`: the segments of `s` between occurrences of
      `sep`, in order. There is always at least one segment, none contains `sep`,
      and there is exactly one segment per separator plus one. */
  function Split(s: string, sep: char): (parts: seq<string>)
    ensures |parts| >= 1
    ensures forall i :: 0 <= i < |parts| ==> sep !in parts[i]
    ensures |parts| == 1 + Count(s, sep)
    decreases |s|
  {
    if |s| == 0 then [""]
    else
      var rest := Split(s[1..], sep);
      if s[0] == sep then [""] + rest
      else [[s[0]] + rest[0]] + rest[1..]
  }

  /** `strings.Join(parts, string(sep))`. */
  function Join(parts: seq<string>, sep: char): string
    requires |parts| >= 1
    decreases |parts|
  {
    if |parts| == 1 then parts[0] else parts[0] + [sep] + Join(parts[1..], sep)
  }

  /** An occurrence in the tail of `s` is an occurrence in `s`, one position later. */
  lemma OccursInTail(sub: string, s: string, i: int)
    requires |s| > 0 && OccursAt(sub, s[1..], i)
    ensures OccursAt(sub, s, i + 1)
  {
    assert s[i + 1..i + 1 + |sub|] == s[1..][i..i + |sub|];
  }

  /** An occurrence in `s` past the first position is an occurrence in its tail. */
  lemma OccursPastHead(sub: string, s: string, i: int)
    requires OccursAt(sub, s, i) && i > 0
    ensures OccursAt(sub, s[1..], i - 1)
  {
    assert s[1..][i - 1..i - 1 + |sub|] == s[i..i + |sub|];
  }

  /** When `sub` does not start `s`, it occurs in `s` exactly when it occurs in
      the tail of `s`. */
  lemma OccursStep(sub: string, s: string)
    requires |s| > 0 && !(sub <= s)
    ensures Occurs(sub, s) <==> Occurs(sub, s[1..])
  {
    if Occurs(sub, s[1..]) {
      var i :| OccursAt(sub, s[1..], i);
      OccursInTail(sub, s, i);
    }
    if Occurs(sub, s) {
      var i :| OccursAt(sub, s, i);
      if i > 0 {
        OccursPastHead(sub, s, i);
      }
    }
  }

  /** The first segment of a split is the longest prefix of `s` free of `sep`:
      it is a prefix, holds no `sep`, and is either all of `s` or followed by `sep`. */
  lemma {:induction false} FirstSegment(s: string, sep: char)
    ensures Split(s, sep)[0] <= s
    ensures |Split(s, sep)[0]| == |s| || s[|Split(s, sep)[0]|] == sep
    ensures sep !in s ==> Split(s, sep)[0] == s
    decreases |s|
  {
    if |s| > 0 && s[0] != sep {
      FirstSegment(s[1..], sep);
      assert Split(s, sep)[0] == [s[0]] + Split(s[1..], sep)[0];
      if sep !in s {
        assert sep !in s[1..];
      }
    }
  }

  /** Joining the segments of a split gives back the original string. */
  lemma {:induction false} JoinSplit(s: string, sep: char)
    ensures Join(Split(s, sep), sep) == s
    decreases |s|
  {
    if |s| > 0 {
      var rest := Split(s[1..], sep);
      JoinSplit(s[1..], sep);
      if s[0] == sep {
        assert Split(s, sep)[1..] == rest;
        assert s == [sep] + s[1..];
      } else if |rest| == 1 {
        assert s == [s[0]] + s[1..];
      } else {
        var parts := Split(s, sep);
        assert parts[1..] == rest[1..];
        assert Join(rest, sep) == rest[0] + [sep] + Join(rest[1..], sep);
        assert s == [s[0]] + s[1..];
      }
    }
  }

  /** Splitting a string that does not contain the separator gives that string alone. */
  lemma {:induction false} SplitWithoutSeparator(a: string, sep: char)
    requires sep !in a
    ensures Split(a, sep) == [a]
    decreases |a|
  {
    if |a| > 0 {
      assert sep !in a[1..];
      SplitWithoutSeparator(a[1..], sep);
      assert a == [a[0]] + a[1..];
    }
  }

  /** A separator-free block followed by the separator splits off as one segment. */
  lemma {:induction false} SplitAfterSegment(a: string, b: string, sep: char)
    requires sep !in a
    ensures Split(a + [sep] + b, sep) == [a] + Split(b, sep)
    decreases |a|
  {
    var s := a + [sep] + b;
    if |a| == 0 {
      assert s[1..] == b;
    } else {
      assert sep !in a[1..];
      SplitAfterSegment(a[1..], b, sep);
      assert s[1..] == a[1..] + [sep] + b;
      assert a == [a[0]] + a[1..];
    }
  }

  /** Splitting a join of separator-free segments gives back the segments. */
  lemma {:induction false} SplitJoin(parts: seq<string>, sep: char)
    requires |parts| >= 1
    requires forall i :: 0 <= i < |parts| ==> sep !in parts[i]
    ensures Split(Join(parts, sep), sep) == parts
    decreases |parts|
  {
    if |parts| == 1 {
      SplitWithoutSeparator(parts[0], sep);
    } else {
      SplitJoin(parts[1..], sep);
      SplitAfterSegment(parts[0], Join(parts[1..], sep), sep);
      assert parts == [parts[0]] + parts[1..];
    }
  }

  /** Every segment of a join occurs in the joined string. */
  lemma {:induction false} OccursInJoin(parts: seq<string>, sep: char, i: nat)
    requires i < |parts|
    ensures Occurs(parts[i], Join(parts, sep))
    decreases |parts|
  {
    var joined := Join(parts, sep);
    if |parts| == 1 {
      assert OccursAt(parts[0], joined, 0);
    } else if i == 0 {
      assert joined[0..|parts[0]|] == parts[0];
      assert OccursAt(parts[0], joined, 0);
    } else {
      OccursInJoin(parts[1..], sep, i - 1);
      var tail := Join(parts[1..], sep);
      var j :| OccursAt(parts[i], tail, j);
      var offset := |parts[0]| + 1;
      assert joined[offset..] == tail;
      assert joined[offset + j..offset + j + |parts[i]|] == tail[j..j + |parts[i]|];
      assert OccursAt(parts[i], joined, offset + j);
    }
  }
}
