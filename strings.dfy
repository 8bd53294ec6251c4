/**
 * The string operations of the JavaScript runtime that the registry builder
 * relies on, over `seq<char>`: `startsWith`, `endsWith`, `includes`,
 * `split` and `join` with a one-character separator, `replace` with a string
 * pattern (first occurrence only), the global hyphen replacement and the
 * case conversions applied to the fixed labels.
 */
module Strings {

  /** `s.startsWith(prefix)`. */
  predicate StartsWith(s: string, prefix: string)
  {
    prefix <= s
  }

  /** `s.endsWith(suffix)`. */
  predicate EndsWith(s: string, suffix: string)
  {
    |suffix| <= |s| && s[|s| - |suffix|..] == suffix
  }

  /** `s.includes(sub)`: `sub` occurs at some position of `s`. */
  predicate Contains(s: string, sub: string)
  {
    exists i :: 0 <= i <= |s| && sub <= s[i..]
  }

  /** Position of the first `c` in `s`, or `|s|` when `s` has none. */
  function IndexOf(s: string, c: char): (i: nat)
    ensures i <= |s|
    ensures i < |s| ==> s[i] == c
    ensures forall j :: 0 <= j < i ==> s[j] != c
  {
    if |s| == 0 then 0
    else if s[0] == c then 0
    else 1 + IndexOf(s[1..], c)
  }

  /**
   * `s.split(sep)`: the pieces of `s` between separators. There is always at
   * least one piece, and no piece contains the separator.
   */
  function Split(s: string, sep: char): (parts: seq<string>)
    ensures |parts| >= 1
    decreases |s|
  {
    var i := IndexOf(s, sep);
    if i == |s| then [s] else [s[..i]] + Split(s[i + 1..], sep)
  }

  /** `parts.join(sep)`. */
  function Join(parts: seq<string>, sep: char): string
  {
    if |parts| == 0 then ""
    else if |parts| == 1 then parts[0]
    else parts[0] + [sep] + Join(parts[1..], sep)
  }

  /** `s.replace(pattern, replacement)` for a string pattern: only the first occurrence is replaced. */
  function ReplaceFirst(s: string, pattern: string, replacement: string): string
    decreases |s|
  {
    if pattern <= s then replacement + s[|pattern|..]
    else if |s| == 0 then s
    else [s[0]] + ReplaceFirst(s[1..], pattern, replacement)
  }

  /** `s.replace(/x/g, y)` for a single character `x`. */
  function ReplaceAll(s: string, x: char, y: char): (r: string)
    ensures |r| == |s|
    ensures forall i :: 0 <= i < |s| ==> r[i] == if s[i] == x then y else s[i]
  {
    seq(|s|, i requires 0 <= i < |s| => if s[i] == x then y else s[i])
  }

  function LowerChar(c: char): char
  {
    if 'A' <= c <= 'Z' then (c as int + 32) as char else c
  }

  function UpperChar(c: char): char
  {
    if 'a' <= c <= 'z' then (c as int - 32) as char else c
  }

  /** `s.toLowerCase()` restricted to ASCII letters. */
  function ToLower(s: string): (r: string)
    ensures |r| == |s|
  {
    seq(|s|, i requires 0 <= i < |s| => LowerChar(s[i]))
  }

  /** `s.charAt(0).toUpperCase() + s.slice(1)`, with ASCII case mapping. */
  function Capitalize(s: string): string
  {
    if |s| == 0 then "" else [UpperChar(s[0])] + s[1..]
  }

  // ---------------------------------------------------------------------
  // split and join
  // ---------------------------------------------------------------------

  /** When `s` has a separator at `n` and none before it, `IndexOf` finds that one. */
  lemma IndexOfFirst(s: string, c: char, n: nat)
    requires n <= |s|
    requires n < |s| ==> s[n] == c
    requires c !in s[..n]
    ensures IndexOf(s, c) == n
  {
    var i := IndexOf(s, c);
    assert forall j :: 0 <= j < n ==> s[..n][j] == s[j];
  }

  /** A string without the separator is a single piece. */
  lemma SplitSingle(s: string, sep: char)
    requires sep !in s
    ensures Split(s, sep) == [s]
  {
    IndexOfFirst(s, sep, |s|);
  }

  /** No piece of a split contains the separator. */
  lemma {:induction false} SplitPiecesFree(s: string, sep: char)
    ensures forall k :: 0 <= k < |Split(s, sep)| ==> sep !in Split(s, sep)[k]
    decreases |s|
  {
    var i := IndexOf(s, sep);
    if i < |s| {
      var rest := s[i + 1..];
      SplitPiecesFree(rest, sep);
      assert sep !in s[..i] by {
        forall j | 0 <= j < i ensures s[..i][j] != sep { }
      }
      assert Split(s, sep) == [s[..i]] + Split(rest, sep);
    } else {
      assert sep !in s;
    }
  }

  /** Joining the pieces of a split gives the string back. */
  lemma {:induction false} JoinSplit(s: string, sep: char)
    ensures Join(Split(s, sep), sep) == s
    decreases |s|
  {
    var i := IndexOf(s, sep);
    if i < |s| {
      var head := s[..i];
      var tail := s[i + 1..];
      var rest := Split(tail, sep);
      assert Split(s, sep) == [head] + rest;
      JoinSplit(tail, sep);
      JoinCons(head, rest, sep);
      assert s == head + [sep] + tail;
    } else {
      assert Split(s, sep) == [s];
    }
  }

  /** Splitting `a + sep + b` splits `a` and `b` separately. */
  lemma {:induction false} SplitAround(a: string, sep: char, b: string)
    ensures Split(a + [sep] + b, sep) == Split(a, sep) + Split(b, sep)
    decreases |a|
  {
    var i := IndexOf(a, sep);
    if i == |a| {
      SplitAt(a, sep, b);
      SplitSingle(a, sep);
    } else {
      var head, tail := a[..i], a[i + 1..];
      SplitAround(tail, sep, b);
      AroundFirst(a, sep, i);
      SplitAroundStep(head, sep, tail, b);
    }
  }

  /** A string with a separator is its first piece, the separator and the rest. */
  lemma AroundFirst(a: string, sep: char, i: nat)
    requires i == IndexOf(a, sep) < |a|
    ensures a == a[..i] + [sep] + a[i + 1..]
    ensures sep !in a[..i]
  {
    assert a[..i] + [sep] + a[i + 1..] == a[..i] + a[i..];
  }

  lemma SplitAroundStep(head: string, sep: char, tail: string, b: string)
    requires sep !in head
    requires Split(tail + [sep] + b, sep) == Split(tail, sep) + Split(b, sep)
    ensures Split(head + [sep] + tail + [sep] + b, sep) == Split(head + [sep] + tail, sep) + Split(b, sep)
  {
    SplitAtRegrouped(head, sep, tail, b);
    SplitAt(head, sep, tail);
    ConsAppend(head, Split(tail, sep), Split(b, sep));
  }

  lemma SplitAtRegrouped(head: string, sep: char, tail: string, b: string)
    requires sep !in head
    ensures Split(head + [sep] + tail + [sep] + b, sep) == [head] + Split(tail + [sep] + b, sep)
  {
    assert head + [sep] + tail + [sep] + b == head + [sep] + (tail + [sep] + b);
    SplitAt(head, sep, tail + [sep] + b);
  }

  lemma ConsAppend<T>(x: T, a: seq<T>, b: seq<T>)
    ensures [x] + (a + b) == [x] + a + b
  {
  }

  /** A separator-free last piece is split off on its own. */
  lemma SplitTwo(a: string, sep: char, last: string)
    requires sep !in last
    ensures Split(a + [sep] + last, sep) == Split(a, sep) + [last]
  {
    SplitAround(a, sep, last);
    SplitSingle(last, sep);
  }

  /** Two separator-free last pieces are split off on their own. */
  lemma SplitThree(a: string, sep: char, middle: string, last: string)
    requires sep !in middle && sep !in last
    ensures Split(a + [sep] + middle + [sep] + last, sep) == Split(a, sep) + [middle] + [last]
  {
    SplitTwo(a + [sep] + middle, sep, last);
    SplitTwo(a, sep, middle);
  }

  /** The first separator cuts off the first piece. */
  lemma SplitAt(head: string, sep: char, tail: string)
    requires sep !in head
    ensures Split(head + [sep] + tail, sep) == [head] + Split(tail, sep)
  {
    var s := head + [sep] + tail;
    assert s[..|head|] == head;
    IndexOfFirst(s, sep, |head|);
    assert s[|head| + 1..] == tail;
  }

  /** Splitting the join of separator-free pieces gives the pieces back. */
  lemma {:induction false} SplitJoin(parts: seq<string>, sep: char)
    requires |parts| >= 1
    requires forall k :: 0 <= k < |parts| ==> sep !in parts[k]
    ensures Split(Join(parts, sep), sep) == parts
  {
    var first := parts[0];
    assert sep !in first;
    SplitSingle(first, sep);
    if |parts| > 1 {
      var rest := parts[1..];
      assert Join(parts, sep) == first + [sep] + Join(rest, sep);
      SplitJoin(rest, sep);
      SplitAround(first, sep, Join(rest, sep));
      assert [first] + rest == parts;
    }
  }

  /** Joining at least two pieces puts a separator after the first one. */
  lemma JoinCons(first: string, rest: seq<string>, sep: char)
    requires |rest| >= 1
    ensures Join([first] + rest, sep) == first + [sep] + Join(rest, sep)
  {
    assert ([first] + rest)[1..] == rest;
  }

  /**
   * The first `k` of some separator-free pieces, joined, are a prefix of the
   * whole join that holds exactly `k - 1` separators and is followed by a
   * separator unless it is the whole join.
   */
  lemma JoinFirstPieces(parts: seq<string>, sep: char, k: nat)
    requires 1 <= k <= |parts|
    requires forall j :: 0 <= j < |parts| ==> sep !in parts[j]
    ensures Join(parts[..k], sep) <= Join(parts, sep)
    ensures multiset(Join(parts[..k], sep))[sep] == k - 1
    ensures k < |parts| ==>
      |Join(parts[..k], sep)| < |Join(parts, sep)| && Join(parts, sep)[|Join(parts[..k], sep)|] == sep
  {
    var first := parts[..k];
    forall j | 0 <= j < |first| ensures sep !in first[j] {
      assert first[j] == parts[j];
    }
    JoinCount(first, sep);
    if k < |parts| {
      JoinSplitAt(parts, sep, k);
      SeparatorAfter(Join(first, sep), sep, Join(parts[k..], sep));
    } else {
      assert first == parts;
    }
  }

  /** Separator-free pieces joined hold one separator fewer than there are pieces. */
  lemma {:induction false} JoinCount(parts: seq<string>, sep: char)
    requires 1 <= |parts|
    requires forall j :: 0 <= j < |parts| ==> sep !in parts[j]
    ensures multiset(Join(parts, sep))[sep] == |parts| - 1
  {
    assert sep !in multiset(parts[0]);
    if |parts| > 1 {
      var rest := parts[1..];
      forall j | 0 <= j < |rest| ensures sep !in rest[j] {
        assert rest[j] == parts[j + 1];
      }
      JoinCount(rest, sep);
      assert multiset(Join(parts, sep)) == multiset(parts[0]) + multiset([sep]) + multiset(Join(rest, sep));
    }
  }

  /** The join of `parts` is the join of its first `k` pieces, a separator and the join of the others. */
  lemma {:induction false} JoinSplitAt(parts: seq<string>, sep: char, k: nat)
    requires 1 <= k < |parts|
    ensures Join(parts, sep) == Join(parts[..k], sep) + [sep] + Join(parts[k..], sep)
  {
    if k == 1 {
      assert parts[..1] == [parts[0]];
    } else {
      var rest := parts[1..];
      JoinSplitAt(rest, sep, k - 1);
      assert rest[k - 1..] == parts[k..];
      JoinPrefixCons(parts, sep, k);
      AppendAssociative4(parts[0] + [sep], Join(rest[..k - 1], sep), [sep], Join(parts[k..], sep));
    }
  }

  lemma AppendAssociative<T>(a: seq<T>, b: seq<T>, c: seq<T>)
    ensures a + (b + c) == a + b + c
  {
  }

  lemma AppendAssociative4<T>(a: seq<T>, b: seq<T>, c: seq<T>, d: seq<T>)
    ensures a + (b + c + d) == a + b + c + d
  {
  }

  /** Joining the first `k > 1` pieces, and all of them, puts the first piece and a separator in front. */
  lemma JoinPrefixCons(parts: seq<string>, sep: char, k: nat)
    requires 2 <= k <= |parts|
    ensures Join(parts[..k], sep) == parts[0] + [sep] + Join(parts[1..][..k - 1], sep)
    ensures Join(parts, sep) == parts[0] + [sep] + Join(parts[1..], sep)
  {
    assert parts[..k] == [parts[0]] + parts[1..][..k - 1];
    JoinCons(parts[0], parts[1..][..k - 1], sep);
  }

  /** `t` is a prefix of `t + [sep] + rest`, followed there by the separator. */
  lemma SeparatorAfter(t: string, sep: char, rest: string)
    ensures t <= t + [sep] + rest
    ensures |t| < |t + [sep] + rest| && (t + [sep] + rest)[|t|] == sep
  {
    assert (t + [sep] + rest)[..|t|] == t;
  }

  // ---------------------------------------------------------------------
  // replace
  // ---------------------------------------------------------------------

  /**
   * When the first occurrence of `pattern` in `s` starts at `n`, removing
   * the first occurrence cuts out exactly `s[n..n + |pattern|]`.
   */
  lemma {:induction false} ReplaceFirstAt(s: string, pattern: string, n: nat)
    requires n + |pattern| <= |s| && s[n..n + |pattern|] == pattern
    requires forall i :: 0 <= i < n ==> !(pattern <= s[i..])
    ensures ReplaceFirst(s, pattern, "") == s[..n] + s[n + |pattern|..]
    decreases n
  {
    if n == 0 {
      ReplaceFirstHere(s, pattern);
    } else {
      ShiftedOccurrence(s, pattern, n);
      ReplaceFirstAt(s[1..], pattern, n - 1);
      ReplaceFirstSkip(s, pattern);
      ShiftedPieces(s, n, |pattern|);
    }
  }

  /** The hypotheses of `ReplaceFirstAt` carry over from `s` to `s[1..]`. */
  lemma ShiftedOccurrence(s: string, pattern: string, n: nat)
    requires 0 < n && n + |pattern| <= |s| && s[n..n + |pattern|] == pattern
    requires forall i :: 0 <= i < n ==> !(pattern <= s[i..])
    ensures s[1..][n - 1..n - 1 + |pattern|] == pattern
    ensures forall i :: 0 <= i < n - 1 ==> !(pattern <= s[1..][i..])
  {
    forall i | 0 <= i < n - 1
      ensures !(pattern <= s[1..][i..])
    {
      assert s[1..][i..] == s[i + 1..];
    }
  }

  /** Where `pattern` is a prefix, removing it leaves the rest. */
  lemma ReplaceFirstHere(s: string, pattern: string)
    requires |pattern| <= |s| && s[..|pattern|] == pattern
    ensures ReplaceFirst(s, pattern, "") == s[..0] + s[|pattern|..]
  {
    assert pattern <= s;
    assert s[..0] + s[|pattern|..] == s[|pattern|..];
  }

  /** Where `pattern` is not a prefix, `replace` keeps the first character. */
  lemma ReplaceFirstSkip(s: string, pattern: string)
    requires 0 < |s| && !(pattern <= s[0..])
    ensures ReplaceFirst(s, pattern, "") == [s[0]] + ReplaceFirst(s[1..], pattern, "")
  {
    assert s[0..] == s;
  }

  /** Cutting `s[1..]` one position earlier is cutting `s` after its first character. */
  lemma ShiftedPieces(s: string, n: nat, m: nat)
    requires 0 < n && n + m <= |s|
    ensures [s[0]] + (s[1..][..n - 1] + s[1..][n - 1 + m..]) == s[..n] + s[n + m..]
  {
    assert [s[0]] + s[1..][..n - 1] == s[..n];
    assert s[1..][n - 1 + m..] == s[n + m..];
  }

  /**
   * Removing an extension that starts with `.` from a base name without `.`
   * leaves the base name: the first occurrence is the extension itself.
   */
  lemma {:induction false} ReplaceExtension(base: string, ext: string)
    requires |ext| > 0 && ext[0] == '.'
    requires '.' !in base
    ensures ReplaceFirst(base + ext, ext, "") == base
    decreases |base|
  {
    if |base| == 0 {
      assert base + ext == ext;
    } else {
      assert (base + ext)[0] == base[0];
      assert !(ext <= base + ext);
      assert (base + ext)[1..] == base[1..] + ext;
      ReplaceExtension(base[1..], ext);
      assert base == [base[0]] + base[1..];
    }
  }

  /** Removing a pattern never introduces a character that was not there. */
  lemma {:induction false} ReplaceFirstKeeps(s: string, pattern: string, c: char)
    requires c !in s
    ensures c !in ReplaceFirst(s, pattern, "")
    decreases |s|
  {
    if !(pattern <= s) && |s| > 0 {
      ReplaceFirstKeeps(s[1..], pattern, c);
    }
  }
}
