/**
 * The JavaScript string operations the risk scorer relies on, over `seq<char>`:
 * `Array.prototype.join`, `String.prototype.split` with a non-empty separator,
 * `String.prototype.includes` and an ASCII `toLowerCase`.
 */
module Strings {

  /** `parts.join(sep)`: the parts with `sep` between each two consecutive ones. */
  function Join(parts: seq<string>, sep: string): string
  {
    if |parts| == 0 then ""
    else if |parts| == 1 then parts[0]
    else parts[0] + sep + Join(parts[1..], sep)
  }

  /** `s.split(sep)` for a non-empty separator: cut at each leftmost non-overlapping occurrence. */
  function SplitOn(s: string, sep: string): (parts: seq<string>)
    requires sep != ""
    ensures |parts| >= 1
    decreases |s|
  {
    if |s| < |sep| then [s]
    else if s[..|sep|] == sep then [""] + SplitOn(s[|sep|..], sep)
    else
      var rest := SplitOn(s[1..], sep);
      [[s[0]] + rest[0]] + rest[1..]
  }

  /** `s.startsWith(p)`. */
  predicate StartsWith(s: string, p: string)
  {
    |p| <= |s| && s[..|p|] == p
  }

  /** `s.endsWith(p)`. */
  predicate EndsWith(s: string, p: string)
  {
    |p| <= |s| && s[|s| - |p|..] == p
  }

  /** `s.includes(k)`. */
  predicate Contains(s: string, k: string)
    decreases |s|
  {
    StartsWith(s, k) || (|s| > 0 && Contains(s[1..], k))
  }

  /** `c.toLowerCase()` restricted to ASCII letters. */
  function ToLowerChar(c: char): char
  {
    if 'A' <= c <= 'Z' then (c as int - 'A' as int + 'a' as int) as char else c
  }

  /** `s.toLowerCase()` restricted to ASCII letters. */
  function ToLower(s: string): (r: string)
    ensures |r| == |s|
    ensures forall i :: 0 <= i < |r| ==> !('A' <= r[i] <= 'Z')
    ensures forall i :: 0 <= i < |r| && !('A' <= s[i] <= 'Z') ==> r[i] == s[i]
  {
    seq(|s|, i requires 0 <= i < |s| => ToLowerChar(s[i]))
  }

  /** `k` occurs in `s` starting at position `i`. */
  predicate OccursAt(s: string, k: string, i: int)
  {
    0 <= i && i + |k| <= |s| && s[i..i + |k|] == k
  }

  /** No occurrence of `sep` starts inside `x` when `x` is followed by `sep`. */
  ghost predicate NoEarlySeparator(x: string, sep: string)
  {
    forall i :: 0 <= i < |x| ==> !OccursAt(x + sep, sep, i)
  }

  /** `includes` holds exactly when `k` occurs at some position of `s`. */
  lemma {:induction false} ContainsIffOccurs(s: string, k: string)
    ensures Contains(s, k) <==> exists i :: OccursAt(s, k, i)
    decreases |s|
  {
    if StartsWith(s, k) {
      assert OccursAt(s, k, 0);
    }
    if |s| > 0 {
      ContainsIffOccurs(s[1..], k);
      if Contains(s[1..], k) {
        var j :| OccursAt(s[1..], k, j);
        assert s[1..][j..j + |k|] == s[j + 1..j + 1 + |k|];
        assert OccursAt(s, k, j + 1);
      }
      if exists i :: OccursAt(s, k, i) {
        var i :| OccursAt(s, k, i);
        if i > 0 {
          assert s[1..][i - 1..i - 1 + |k|] == s[i..i + |k|];
          assert OccursAt(s[1..], k, i - 1);
        }
      }
    }
  }

  /** The first element of a non-empty join: the join of the rest follows `sep`. */
  lemma JoinCons(x: string, rest: seq<string>, sep: string)
    requires rest != []
    ensures Join([x] + rest, sep) == x + sep + Join(rest, sep)
  {
    assert ([x] + rest)[1..] == rest;
  }

  /** Appending one part to a join appends `sep` and the part, and `sep` only if there was a part before. */
  lemma {:induction false} JoinSnoc(parts: seq<string>, x: string, sep: string)
    ensures Join(parts + [x], sep) == if parts == [] then x else Join(parts, sep) + sep + x
    decreases |parts|
  {
    if |parts| == 1 {
      assert parts + [x] == [parts[0]] + [x];
    } else if |parts| > 1 {
      assert (parts + [x])[1..] == parts[1..] + [x];
      JoinSnoc(parts[1..], x, sep);
    }
  }

  /** A join of non-empty parts is empty exactly when there are no parts. */
  lemma {:induction false} JoinEmptyIff(parts: seq<string>, sep: string)
    requires forall i :: 0 <= i < |parts| ==> parts[i] != ""
    ensures Join(parts, sep) == "" <==> parts == []
  {
    if |parts| > 1 {
      assert |Join(parts, sep)| >= |parts[0]|;
    }
  }

  /** A join of non-empty parts starts with the first character of the first part. */
  lemma {:induction false} JoinFirstChar(parts: seq<string>, sep: string)
    requires parts != [] && parts[0] != ""
    ensures Join(parts, sep) != "" && Join(parts, sep)[0] == parts[0][0]
  {
  }

  /** A join of non-empty parts ends with the last character of the last part. */
  lemma {:induction false} JoinLastChar(parts: seq<string>, sep: string)
    requires parts != [] && parts[|parts| - 1] != ""
    ensures var j := Join(parts, sep); j != "" && j[|j| - 1] == parts[|parts| - 1][|parts[|parts| - 1]| - 1]
    decreases |parts|
  {
    if |parts| > 1 {
      JoinLastChar(parts[1..], sep);
      var tail := Join(parts[1..], sep);
      assert Join(parts, sep) == (parts[0] + sep) + tail;
    }
  }

  /** Splitting and joining again with the same separator gives back the string. */
  lemma {:induction false} JoinSplitOn(s: string, sep: string)
    requires sep != ""
    ensures Join(SplitOn(s, sep), sep) == s
    decreases |s|
  {
    if |s| < |sep| {
    } else if s[..|sep|] == sep {
      var rest := SplitOn(s[|sep|..], sep);
      JoinSplitOn(s[|sep|..], sep);
      JoinCons("", rest, sep);
      assert s == s[..|sep|] + s[|sep|..];
    } else {
      var rest := SplitOn(s[1..], sep);
      JoinSplitOn(s[1..], sep);
      var head := [s[0]] + rest[0];
      if |rest| == 1 {
        assert SplitOn(s, sep) == [head];
        assert s == [s[0]] + s[1..];
      } else {
        JoinCons(head, rest[1..], sep);
        JoinCons(rest[0], rest[1..], sep);
        assert rest == [rest[0]] + rest[1..];
        assert s == [s[0]] + s[1..];
      }
    }
  }

  /** A part followed by the separator splits off as one whole part. */
  lemma {:induction false} SplitOnAfterPart(x: string, sep: string, rest: string)
    requires sep != "" && NoEarlySeparator(x, sep)
    ensures SplitOn(x + sep + rest, sep) == [x] + SplitOn(rest, sep)
    decreases |x|
  {
    var s := x + sep + rest;
    if x == [] {
      assert s == sep + rest;
      assert s[..|sep|] == sep;
      assert s[|sep|..] == rest;
    } else {
      assert !OccursAt(x + sep, sep, 0);
      assert s[..|sep|] == (x + sep)[0..|sep|];
      assert s[1..] == x[1..] + sep + rest;
      assert NoEarlySeparator(x[1..], sep) by {
        forall i | 0 <= i < |x[1..]|
          ensures !OccursAt(x[1..] + sep, sep, i)
        {
          assert !OccursAt(x + sep, sep, i + 1);
          assert (x[1..] + sep)[i..i + |sep|] == (x + sep)[i + 1..i + 1 + |sep|];
        }
      }
      SplitOnAfterPart(x[1..], sep, rest);
      assert [x[0]] + x[1..] == x;
    }
  }

  /** A part with no early separator is not split at all. */
  lemma {:induction false} SplitOnWholePart(x: string, sep: string)
    requires sep != "" && NoEarlySeparator(x, sep)
    ensures SplitOn(x, sep) == [x]
    decreases |x|
  {
    if |x| >= |sep| {
      assert !OccursAt(x + sep, sep, 0);
      assert (x + sep)[0..|sep|] == x[..|sep|];
      assert NoEarlySeparator(x[1..], sep) by {
        forall i | 0 <= i < |x[1..]|
          ensures !OccursAt(x[1..] + sep, sep, i)
        {
          assert !OccursAt(x + sep, sep, i + 1);
          assert (x[1..] + sep)[i..i + |sep|] == (x + sep)[i + 1..i + 1 + |sep|];
        }
      }
      SplitOnWholePart(x[1..], sep);
      assert [x[0]] + x[1..] == x;
    }
  }

  /** Splitting a join gives back the parts, when no part lets a separator start early. */
  lemma {:induction false} SplitOnJoin(parts: seq<string>, sep: string)
    requires sep != "" && parts != []
    requires forall i :: 0 <= i < |parts| ==> NoEarlySeparator(parts[i], sep)
    ensures SplitOn(Join(parts, sep), sep) == parts
    decreases |parts|
  {
    if |parts| == 1 {
      SplitOnWholePart(parts[0], sep);
    } else {
      SplitOnJoin(parts[1..], sep);
      SplitOnAfterPart(parts[0], sep, Join(parts[1..], sep));
      assert [parts[0]] + parts[1..] == parts;
    }
  }
}
