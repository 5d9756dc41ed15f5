/**
 * Shared vocabulary of the model: optional values and results, the
 * JavaScript string operations the decoders and caches rely on (`trim`,
 * `toLowerCase`, `includes`, `split`, `join`, `String(n)`), and the
 * sequence algorithms it applies to feed records (`filter`, a stable
 * `sort` by an integer key, de-duplication by a key with a `seen` set,
 * and `slice(0, end)`).
 */
module Common {

  datatype Option<+T> = None | Some(value: T) {
    /** `value ?? default` */
    function GetOr(default: T): T {
      match this
      case Some(v) => v
      case None => default
    }
  }

  datatype Result<+T, +E> = Ok(value: T) | Err(error: E)

  newtype byte = x: int | 0 <= x < 256

  // ---------------------------------------------------------------------
  // Strings
  // ---------------------------------------------------------------------

  /** The characters `String.prototype.trim` removes: ECMAScript WhiteSpace and LineTerminator. */
  predicate IsJsSpace(c: char) {
    var n := c as int;
    (0x09 <= n <= 0x0D) || n == 0x20 || n == 0xA0 || n == 0x1680 || (0x2000 <= n <= 0x200A)
    || n == 0x2028 || n == 0x2029 || n == 0x202F || n == 0x205F || n == 0x3000 || n == 0xFEFF
  }

  predicate AllSpace(s: string) {
    forall i :: 0 <= i < |s| ==> IsJsSpace(s[i])
  }

  /** Neither end of `s` carries white space that `trim` would remove. */
  predicate IsTrimmed(s: string) {
    s == [] || (!IsJsSpace(s[0]) && !IsJsSpace(s[|s| - 1]))
  }

  function TrimStart(s: string): (r: string)
    ensures |r| <= |s|
    ensures r == [] || !IsJsSpace(r[0])
  {
    if s != [] && IsJsSpace(s[0]) then TrimStart(s[1..]) else s
  }

  function TrimEnd(s: string): (r: string)
    ensures |r| <= |s| && r == s[..|r|]
    ensures r == [] || !IsJsSpace(r[|r| - 1])
  {
    if s != [] && IsJsSpace(s[|s| - 1]) then TrimEnd(s[..|s| - 1]) else s
  }

  /** `trimStart` drops a run of white space from the front and keeps the rest. */
  lemma {:induction false} TrimStartCuts(s: string)
    ensures var r := TrimStart(s); r == s[|s| - |r|..] && AllSpace(s[..|s| - |r|])
  {
    if s != [] && IsJsSpace(s[0]) {
      TrimStartCuts(s[1..]);
    }
  }

  /** `trimEnd` drops a run of white space from the back and keeps the rest. */
  lemma {:induction false} TrimEndCuts(s: string)
    ensures var r := TrimEnd(s); AllSpace(s[|r|..])
  {
    if s != [] && IsJsSpace(s[|s| - 1]) {
      TrimEndCuts(s[..|s| - 1]);
    }
  }

  /** `s.trim()`: what is left of `s` once the white space at both ends is cut off. */
  function Trim(s: string): (r: string)
    ensures IsTrimmed(r) && |r| <= |s|
  {
    TrimEnd(TrimStart(s))
  }

  /** `trim` removes white space at the two ends and nothing else. */
  lemma TrimCutsOnlySpace(s: string)
    ensures var r := Trim(s);
      exists i :: 0 <= i <= |s| - |r| && s[i..i + |r|] == r && AllSpace(s[..i]) && AllSpace(s[i + |r|..])
  {
    var t := TrimStart(s);
    var r := TrimEnd(t);
    TrimStartCuts(s);
    TrimEndCuts(t);
    var i := |s| - |t|;
    assert s[i..i + |r|] == r;
    assert s[i + |r|..] == t[|r|..];
  }

  lemma TrimOfTrimmed(s: string)
    requires IsTrimmed(s)
    ensures Trim(s) == s
  {
  }

  /** A non-empty string with no white space at either end. */
  predicate IsTrimmedNonEmpty(s: string) {
    s != "" && IsTrimmed(s)
  }

  /** Every element trimmed, with the ones that trim to nothing dropped, order kept. */
  function NonEmptyTrimmed(raw: seq<string>): seq<string> {
    if raw == [] then []
    else (if Trim(raw[0]) != "" then [Trim(raw[0])] else []) + NonEmptyTrimmed(raw[1..])
  }

  /** The results are stop keys, and a string is among them exactly when some input trims to it. */
  lemma {:induction false} NonEmptyTrimmedMembers(raw: seq<string>)
    ensures forall x :: x in NonEmptyTrimmed(raw) ==> IsTrimmedNonEmpty(x)
    ensures forall x :: x in NonEmptyTrimmed(raw) <==> x != "" && exists k :: 0 <= k < |raw| && Trim(raw[k]) == x
  {
    if raw != [] {
      NonEmptyTrimmedMembers(raw[1..]);
      forall x | x != "" && (exists k :: 0 <= k < |raw| && Trim(raw[k]) == x)
        ensures x in NonEmptyTrimmed(raw)
      {
        var k :| 0 <= k < |raw| && Trim(raw[k]) == x;
        if k > 0 {
          assert raw[1..][k - 1] == raw[k];
        }
      }
      forall x | x in NonEmptyTrimmed(raw[1..])
        ensures exists k :: 0 <= k < |raw| && Trim(raw[k]) == x
      {
        var k :| 0 <= k < |raw[1..]| && Trim(raw[1..][k]) == x;
        assert Trim(raw[k + 1]) == x;
      }
    }
  }

  /** The ASCII part of `toLowerCase`. */
  function LowerChar(c: char): char {
    if 'A' <= c <= 'Z' then (c as int + 32) as char else c
  }

  function ToLower(s: string): (r: string)
    ensures |r| == |s| && forall i :: 0 <= i < |s| ==> r[i] == LowerChar(s[i])
  {
    seq(|s|, i requires 0 <= i < |s| => LowerChar(s[i]))
  }

  /** `t` occurs in `s` starting at index `i`. */
  predicate OccursAt(s: string, t: string, i: int) {
    0 <= i && i + |t| <= |s| && s[i..i + |t|] == t
  }

  /** `s.includes(t)`, by scanning `s` from the left. */
  function Contains(s: string, t: string): (b: bool)
    ensures b <==> exists i :: OccursAt(s, t, i)
  {
    if |s| < |t| then false
    else if s[..|t|] == t then assert OccursAt(s, t, 0); true
    else
      var b := Contains(s[1..], t);
      assert forall i :: OccursAt(s[1..], t, i) ==> OccursAt(s, t, i + 1);
      assert forall i :: 1 <= i && OccursAt(s, t, i) ==> OccursAt(s[1..], t, i - 1);
      b
  }

  predicate EndsWith(s: string, suffix: string) {
    |suffix| <= |s| && s[|s| - |suffix|..] == suffix
  }

  /** `parts.join(sep)` for a one-character separator. */
  function Join(parts: seq<string>, sep: char): string {
    if parts == [] then []
    else if |parts| == 1 then parts[0]
    else parts[0] + [sep] + Join(parts[1..], sep)
  }

  /** `s.split(sep)` for a one-character separator: never empty, and `""` splits into `[""]`. */
  function Split(s: string, sep: char): (parts: seq<string>)
    ensures |parts| >= 1
    ensures forall k :: 0 <= k < |parts| ==> sep !in parts[k]
  {
    if s == [] then [[]]
    else
      var rest := Split(s[1..], sep);
      if s[0] == sep then [[]] + rest
      else [[s[0]] + rest[0]] + rest[1..]
  }

  /** Splitting and joining again gives back the string. */
  lemma {:induction false} JoinSplit(s: string, sep: char)
    ensures Join(Split(s, sep), sep) == s
  {
    if s != [] {
      var rest := Split(s[1..], sep);
      JoinSplit(s[1..], sep);
      if s[0] != sep && |rest| > 1 {
        var parts := Split(s, sep);
        assert parts[1..] == rest[1..];
        assert Join(rest, sep) == rest[0] + [sep] + Join(rest[1..], sep);
      }
    }
  }

  lemma {:induction false} SplitAfterPlainPrefix(p: string, x: string, sep: char)
    requires sep !in p
    ensures Split(p + x, sep) == [p + Split(x, sep)[0]] + Split(x, sep)[1..]
  {
    if p != [] {
      assert p[0] != sep && sep !in p[1..];
      assert (p + x)[1..] == p[1..] + x;
      SplitAfterPlainPrefix(p[1..], x, sep);
      assert [p[0]] + (p[1..] + Split(x, sep)[0]) == p + Split(x, sep)[0];
    } else {
      assert p + x == x;
      var parts := Split(x, sep);
      assert parts == [parts[0]] + parts[1..];
      assert p + parts[0] == parts[0];
    }
  }

  /** Joining separator-free parts and splitting again gives back the parts. */
  lemma {:induction false} SplitJoin(parts: seq<string>, sep: char)
    requires |parts| >= 1
    requires forall k :: 0 <= k < |parts| ==> sep !in parts[k]
    ensures Split(Join(parts, sep), sep) == parts
  {
    if |parts| == 1 {
      SplitAfterPlainPrefix(parts[0], [], sep);
      assert parts[0] + [] == parts[0];
    } else {
      var tail := Join(parts[1..], sep);
      SplitJoin(parts[1..], sep);
      assert Join(parts, sep) == parts[0] + ([sep] + tail);
      assert ([sep] + tail)[1..] == tail;
      assert Split([sep] + tail, sep) == [[]] + parts[1..];
      SplitAfterPlainPrefix(parts[0], [sep] + tail, sep);
      assert parts[0] + [] == parts[0];
      assert parts == [parts[0]] + parts[1..];
    }
  }

  function DigitChar(d: nat): (c: char)
    requires d < 10
    ensures '0' <= c <= '9'
  {
    "0123456789"[d]
  }

  /** Decimal digits of `n`, as `String(n)` prints a non-negative integer. */
  function NatToString(n: nat): (s: string)
    ensures |s| >= 1 && forall i :: 0 <= i < |s| ==> '0' <= s[i] <= '9'
  {
    if n < 10 then [DigitChar(n)] else NatToString(n / 10) + [DigitChar(n % 10)]
  }

  /** `String(i)` for an integer. */
  function IntToString(i: int): (s: string)
    ensures |s| >= 1 && forall k :: 0 <= k < |s| ==> s[k] == '-' || '0' <= s[k] <= '9'
  {
    if i < 0 then "-" + NatToString(-i) else NatToString(i)
  }

  // ---------------------------------------------------------------------
  // Sequences
  // ---------------------------------------------------------------------

  /** `s.filter(p)`. */
  function Filter<T>(s: seq<T>, p: T -> bool): (r: seq<T>)
    ensures |r| <= |s|
    ensures forall x :: x in r ==> x in s && p(x)
    ensures forall x :: x in s && p(x) ==> x in r
  {
    if s == [] then [] else (if p(s[0]) then [s[0]] else []) + Filter(s[1..], p)
  }

  lemma {:induction false} FilterAppend<T>(a: seq<T>, b: seq<T>, p: T -> bool)
    ensures Filter(a + b, p) == Filter(a, p) + Filter(b, p)
  {
    if a != [] {
      assert (a + b)[1..] == a[1..] + b;
      FilterAppend(a[1..], b, p);
    } else {
      assert a + b == b;
    }
  }

  /** Filtering a sequence without repeats gives one without repeats. */
  lemma {:induction false} FilterDistinct<T>(s: seq<T>, p: T -> bool)
    requires forall i, j :: 0 <= i < j < |s| ==> s[i] != s[j]
    ensures forall i, j :: 0 <= i < j < |Filter(s, p)| ==> Filter(s, p)[i] != Filter(s, p)[j]
  {
    if s != [] {
      var tail := s[1..];
      forall i, j | 0 <= i < j < |tail| ensures tail[i] != tail[j] {
        assert tail[i] == s[i + 1] && tail[j] == s[j + 1];
      }
      FilterDistinct(tail, p);
      assert s[0] !in tail by {
        forall k | 0 <= k < |tail| ensures tail[k] != s[0] {
          assert tail[k] == s[k + 1];
        }
      }
      var r := Filter(s, p);
      var rest := Filter(tail, p);
      if p(s[0]) {
        assert r == [s[0]] + rest;
        assert s[0] !in rest;
        forall i, j | 0 <= i < j < |r| ensures r[i] != r[j] {
          if i == 0 {
            assert r[j] == rest[j - 1];
            assert rest[j - 1] in rest;
          } else {
            assert r[i] == rest[i - 1] && r[j] == rest[j - 1];
          }
        }
      } else {
        assert r == rest;
      }
    }
  }

  /** `s.slice(0, end)`: the index where the slice stops, a negative `end` counting from the back. */
  function SliceEnd(len: nat, end: int): (e: nat)
    ensures e <= len
    ensures end >= 0 ==> e == (if end < len then end else len)
    ensures end < 0 ==> e == (if len + end > 0 then len + end else 0)
  {
    if end < 0 then (if len + end > 0 then len + end else 0)
    else if end < len then end else len
  }

  /** `s.slice(0, end)`. */
  function SlicePrefix<T>(s: seq<T>, end: int): (r: seq<T>)
    ensures r <= s
    ensures end >= 0 ==> |r| <= end
    ensures |r| == SliceEnd(|s|, end)
  {
    s[..SliceEnd(|s|, end)]
  }

  /** The slice keeps the elements of the prefix where they were. */
  lemma SlicePrefixElements<T>(s: seq<T>, end: int)
    ensures forall i :: 0 <= i < |SlicePrefix(s, end)| ==> SlicePrefix(s, end)[i] == s[i]
  {
  }

  predicate SortedBy<T>(s: seq<T>, key: T -> int) {
    forall i, j :: 0 <= i < j < |s| ==> key(s[i]) <= key(s[j])
  }

  /** The elements of `s` whose key is `k`, in their order in `s`. */
  function WithKey<T>(s: seq<T>, key: T -> int, k: int): seq<T> {
    if s == [] then [] else (if key(s[0]) == k then [s[0]] else []) + WithKey(s[1..], key, k)
  }

  /** Puts `x` in front of the first element whose key is not below `key(x)`. */
  function InsertBy<T>(x: T, s: seq<T>, key: T -> int): (r: seq<T>)
    ensures multiset(r) == multiset(s) + multiset{x}
  {
    if s == [] || key(x) <= key(s[0]) then [x] + s
    else
      assert s == [s[0]] + s[1..];
      [s[0]] + InsertBy(x, s[1..], key)
  }

  lemma {:induction false} InsertBySorted<T>(x: T, s: seq<T>, key: T -> int)
    requires SortedBy(s, key)
    ensures SortedBy(InsertBy(x, s, key), key)
  {
    if s != [] && key(x) > key(s[0]) {
      var t := InsertBy(x, s[1..], key);
      InsertBySorted(x, s[1..], key);
      assert s == [s[0]] + s[1..];
      forall y | y in t ensures key(s[0]) <= key(y) {
        assert y in multiset(t);
        assert y == x || y in multiset(s[1..]);
      }
    }
  }

  /**
   * `s.sort((a, b) => key(a) - key(b))`: `Array.prototype.sort` is stable, so
   * elements with equal keys keep their order (lemma SortByStable).
   */
  function SortBy<T>(s: seq<T>, key: T -> int): (r: seq<T>)
    ensures |r| == |s|
    ensures multiset(r) == multiset(s)
    ensures SortedBy(r, key)
  {
    if s == [] then []
    else
      var r := InsertBy(s[0], SortBy(s[1..], key), key);
      InsertBySorted(s[0], SortBy(s[1..], key), key);
      assert s == [s[0]] + s[1..];
      assert multiset(r) == multiset(s);
      assert |r| == |multiset(r)|;
      r
  }

  lemma {:induction false} InsertByWithKey<T>(x: T, s: seq<T>, key: T -> int, k: int)
    ensures WithKey(InsertBy(x, s, key), key, k) == (if key(x) == k then [x] else []) + WithKey(s, key, k)
  {
    if s == [] || key(x) <= key(s[0]) {
      assert ([x] + s)[1..] == s;
    } else {
      var t := InsertBy(x, s[1..], key);
      var ins := InsertBy(x, s, key);
      assert ins == [s[0]] + t;
      assert ins[0] == s[0] && ins[1..] == t;
      InsertByWithKey(x, s[1..], key, k);
      var rest := WithKey(s[1..], key, k);
      if key(s[0]) == k {
        // then key(x) > k, so x does not have the key
        assert WithKey(ins, key, k) == [s[0]] + WithKey(t, key, k);
        assert WithKey(t, key, k) == rest;
        assert WithKey(s, key, k) == [s[0]] + rest;
        assert (if key(x) == k then [x] else []) == [];
      } else {
        assert WithKey(ins, key, k) == WithKey(t, key, k);
        assert WithKey(s, key, k) == rest;
      }
    }
  }

  /** Sorting keeps the relative order of elements that share a key. */
  lemma {:induction false} SortByStable<T>(s: seq<T>, key: T -> int, k: int)
    ensures WithKey(SortBy(s, key), key, k) == WithKey(s, key, k)
  {
    if s != [] {
      SortByStable(s[1..], key, k);
      InsertByWithKey(s[0], SortBy(s[1..], key), key, k);
    }
  }

  /** The keys already taken by the elements of `s`. */
  function KeysOf<T(==), K>(s: seq<T>, key: T -> K): set<K> {
    set x | x in s :: key(x)
  }

  lemma KeysOfSnoc<T, K>(s: seq<T>, x: T, key: T -> K)
    ensures KeysOf(s + [x], key) == KeysOf(s, key) + {key(x)}
  {
    assert forall y :: y in s + [x] <==> y in s || y == x;
  }

  /**
   * `s.filter` with a `seen` set of keys: keeps the first element of each key,
   * in order. Each step asks whether the last element's key is among those
   * kept so far.
   */
  function UniqueBy<T(==), K(==)>(s: seq<T>, key: T -> K): (r: seq<T>)
    ensures |r| <= |s|
    ensures forall i, j :: 0 <= i < j < |r| ==> key(r[i]) != key(r[j])
    ensures forall x :: x in r ==> x in s
    ensures KeysOf(r, key) == KeysOf(s, key)
    decreases |s|
  {
    if s == [] then []
    else
      var init := s[..|s| - 1];
      var last := s[|s| - 1];
      var prefix := UniqueBy(init, key);
      KeysOfSnoc(init, last, key);
      KeysOfSnoc(prefix, last, key);
      if key(last) in KeysOf(prefix, key) then prefix else prefix + [last]
  }

  /** Index of the first element of `s` whose key is `k`. */
  function FirstIndexOfKey<T(==), K(==)>(s: seq<T>, key: T -> K, k: K): (i: nat)
    requires k in KeysOf(s, key)
    ensures i < |s| && key(s[i]) == k
    ensures forall m :: 0 <= m < i ==> key(s[m]) != k
  {
    if key(s[0]) == k then 0
    else
      assert k in KeysOf(s[1..], key);
      1 + FirstIndexOfKey(s[1..], key, k)
  }

  lemma FirstIndexOfKeyExtend<T, K>(s: seq<T>, x: T, key: T -> K, k: K)
    requires k in KeysOf(s, key)
    ensures k in KeysOf(s + [x], key)
    ensures FirstIndexOfKey(s + [x], key, k) == FirstIndexOfKey(s, key, k)
  {
    var i := FirstIndexOfKey(s, key, k);
    var j := FirstIndexOfKey(s + [x], key, k);
    assert (s + [x])[i] == s[i];
  }

  /**
   * UniqueBy keeps, for each key, the FIRST element that has it, and lists the
   * kept elements in the order of those first occurrences.
   */
  lemma {:induction false} UniqueByFirstOccurrence<T, K>(s: seq<T>, key: T -> K)
    ensures forall i :: 0 <= i < |UniqueBy(s, key)| ==>
      key(UniqueBy(s, key)[i]) in KeysOf(s, key) &&
      UniqueBy(s, key)[i] == s[FirstIndexOfKey(s, key, key(UniqueBy(s, key)[i]))]
    ensures forall i, j :: 0 <= i < j < |UniqueBy(s, key)| ==>
      key(UniqueBy(s, key)[i]) in KeysOf(s, key) && key(UniqueBy(s, key)[j]) in KeysOf(s, key) &&
      FirstIndexOfKey(s, key, key(UniqueBy(s, key)[i])) < FirstIndexOfKey(s, key, key(UniqueBy(s, key)[j]))
    decreases |s|
  {
    var r := UniqueBy(s, key);
    if s != [] {
      var init := s[..|s| - 1];
      var last := s[|s| - 1];
      assert s == init + [last];
      var prefix := UniqueBy(init, key);
      UniqueByFirstOccurrence(init, key);
      forall k | k in KeysOf(init, key)
        ensures k in KeysOf(s, key) && FirstIndexOfKey(s, key, k) == FirstIndexOfKey(init, key, k)
      {
        FirstIndexOfKeyExtend(init, last, key, k);
      }
      forall i | 0 <= i < |prefix|
        ensures key(prefix[i]) in KeysOf(init, key)
        ensures FirstIndexOfKey(s, key, key(prefix[i])) < |init|
        ensures prefix[i] == s[FirstIndexOfKey(s, key, key(prefix[i]))]
      {
        assert prefix[i] in prefix;
        var m := FirstIndexOfKey(init, key, key(prefix[i]));
        assert s[m] == init[m];
      }
      if key(last) !in KeysOf(prefix, key) {
        assert r == prefix + [last];
        assert key(last) in KeysOf(s, key) by {
          assert last in s;
        }
        forall m | 0 <= m < |init|
          ensures key(s[m]) != key(last)
        {
          assert s[m] == init[m];
          assert init[m] in init;
        }
        forall i | 0 <= i < |r|
          ensures key(r[i]) in KeysOf(s, key) && r[i] == s[FirstIndexOfKey(s, key, key(r[i]))]
        {
          if i < |prefix| {
            assert r[i] == prefix[i];
          }
        }
        forall i, j | 0 <= i < j < |r|
          ensures FirstIndexOfKey(s, key, key(r[i])) < FirstIndexOfKey(s, key, key(r[j]))
        {
          assert r[i] == prefix[i];
          if j < |prefix| {
            assert r[j] == prefix[j];
          }
        }
      } else {
        assert r == prefix;
      }
    }
  }

  /** A sequence whose keys are pairwise distinct has as many keys as elements. */
  lemma {:induction false} DistinctKeysCount<T, K>(s: seq<T>, key: T -> K)
    requires forall i, j :: 0 <= i < j < |s| ==> key(s[i]) != key(s[j])
    ensures |KeysOf(s, key)| == |s|
  {
    if s != [] {
      var init := s[..|s| - 1];
      var last := s[|s| - 1];
      assert s == init + [last];
      DistinctKeysCount(init, key);
      KeysOfSnoc(init, last, key);
      forall y | y in init ensures key(y) != key(last) {
        var m :| 0 <= m < |init| && init[m] == y;
        assert s[m] == y;
      }
    }
  }

  /** De-duplication keeps exactly one element per key. */
  lemma UniqueByCount<T, K>(s: seq<T>, key: T -> K)
    ensures |UniqueBy(s, key)| == |KeysOf(s, key)|
  {
    DistinctKeysCount(UniqueBy(s, key), key);
  }

  /**
   * Sort by `order`, keep the first element of each key, cut with `slice(0, limit)`:
   * only elements of `s`, each the first of its key in the sorted sequence,
   * and one per distinct key up to the cut.
   */
  lemma SortUniqueSlice<T, K>(s: seq<T>, order: T -> int, key: T -> K, limit: int)
    ensures var r := SlicePrefix(UniqueBy(SortBy(s, order), key), limit);
      && (forall x :: x in r ==> x in s)
      && |r| == SliceEnd(|KeysOf(s, key)|, limit)
    ensures var sorted := SortBy(s, order);
      var r := SlicePrefix(UniqueBy(sorted, key), limit);
      forall i :: 0 <= i < |r| ==>
        key(r[i]) in KeysOf(sorted, key) && r[i] == sorted[FirstIndexOfKey(sorted, key, key(r[i]))]
  {
    var sorted := SortBy(s, order);
    var unique := UniqueBy(sorted, key);
    SameElementsSameKeys(sorted, s, key);
    UniqueByCount(sorted, key);
    SliceFirstOccurrence(sorted, key, limit);
  }

  /**
   * The cut keeps the earliest elements: an element of `s` whose key did not
   * make the cut comes no earlier than anything that did.
   */
  lemma SortUniqueSliceEarliest<T, K>(s: seq<T>, order: T -> int, key: T -> K, limit: int)
    ensures var r := SlicePrefix(UniqueBy(SortBy(s, order), key), limit);
      forall d, e :: d in s && key(d) !in KeysOf(r, key) && e in r ==> order(e) <= order(d)
  {
    var sorted := SortBy(s, order);
    var r := SlicePrefix(UniqueBy(sorted, key), limit);
    SameElementsSameKeys(sorted, s, key);
    forall d, e | d in s && key(d) !in KeysOf(r, key) && e in r
      ensures order(e) <= order(d)
    {
      UniqueSliceEarliest(sorted, order, key, limit, d, e);
    }
  }

  /** The pointwise step: `sorted` is sorted, `d` in it has a key the cut lacks, `e` made the cut. */
  lemma UniqueSliceEarliest<T, K>(sorted: seq<T>, order: T -> int, key: T -> K, limit: int, d: T, e: T)
    requires SortedBy(sorted, order) && d in sorted
    requires key(d) !in KeysOf(SlicePrefix(UniqueBy(sorted, key), limit), key)
    requires e in SlicePrefix(UniqueBy(sorted, key), limit)
    ensures order(e) <= order(d)
  {
    var unique := UniqueBy(sorted, key);
    var r := SlicePrefix(unique, limit);
    assert key(d) in KeysOf(unique, key);
    var j :| 0 <= j < |unique| && key(unique[j]) == key(d);
    var i :| 0 <= i < |r| && r[i] == e;
    assert j >= |r|;
    UniqueByKeepsSorted(sorted, key, order);
    assert order(e) <= order(unique[j]) by {
      assert unique[i] == e;
    }
    UniqueByElementIsFirst(sorted, key, j);
    var m :| 0 <= m < |sorted| && sorted[m] == d;
  }

  /** An element kept by the de-duplication is the first of its key in `s`. */
  lemma UniqueByElementIsFirst<T, K>(s: seq<T>, key: T -> K, j: nat)
    requires j < |UniqueBy(s, key)|
    ensures key(UniqueBy(s, key)[j]) in KeysOf(s, key)
    ensures UniqueBy(s, key)[j] == s[FirstIndexOfKey(s, key, key(UniqueBy(s, key)[j]))]
  {
    UniqueByFirstOccurrence(s, key);
  }

  lemma SameElementsSameKeys<T, K>(s: seq<T>, t: seq<T>, key: T -> K)
    requires multiset(s) == multiset(t)
    ensures forall x :: x in s <==> x in t
    ensures KeysOf(s, key) == KeysOf(t, key)
  {
    forall x ensures x in s <==> x in t {
      assert x in s <==> x in multiset(s);
      assert x in t <==> x in multiset(t);
    }
  }

  /** The cut of a de-duplication: each element is the first of its key in `s`. */
  lemma SliceFirstOccurrence<T, K>(s: seq<T>, key: T -> K, limit: int)
    ensures var r := SlicePrefix(UniqueBy(s, key), limit);
      forall i :: 0 <= i < |r| ==> key(r[i]) in KeysOf(s, key) && r[i] == s[FirstIndexOfKey(s, key, key(r[i]))]
    ensures forall x :: x in SlicePrefix(UniqueBy(s, key), limit) ==> x in s
  {
    var unique := UniqueBy(s, key);
    var r := SlicePrefix(unique, limit);
    SlicePrefixElements(unique, limit);
    UniqueByFirstOccurrence(s, key);
    forall x | x in r ensures x in s {
      assert x in unique;
    }
  }

  /** Appending one element: it is kept exactly when its key is new. */
  lemma UniqueBySnoc<T, K>(s: seq<T>, x: T, key: T -> K)
    ensures UniqueBy(s + [x], key) ==
      if key(x) in KeysOf(UniqueBy(s, key), key) then UniqueBy(s, key) else UniqueBy(s, key) + [x]
  {
    assert (s + [x])[..|s|] == s;
  }

  function Id<T>(x: T): T {
    x
  }

  /** `[...new Set(s)]`: each distinct element of `s` once, at its first occurrence. */
  function Dedup<T(==)>(s: seq<T>): (r: seq<T>)
    ensures forall i, j :: 0 <= i < j < |r| ==> r[i] != r[j]
    ensures forall i :: 0 <= i < |r| ==> r[i] in s
    ensures forall i :: 0 <= i < |s| ==> s[i] in r
  {
    var r := UniqueBy(s, Id);
    forall i | 0 <= i < |s| ensures s[i] in r {
      assert Id(s[i]) in KeysOf(s, Id);
      assert Id(s[i]) in KeysOf(r, Id);
    }
    r
  }

  /** Adding one element to a `Set`: it is appended exactly when it is new. */
  lemma DedupSnoc<T>(s: seq<T>, x: T)
    ensures Dedup(s + [x]) == if x in Dedup(s) then Dedup(s) else Dedup(s) + [x]
  {
    UniqueBySnoc(s, x, Id);
    var r := UniqueBy(s, Id);
    if x in r {
      assert Id(x) in KeysOf(r, Id);
    }
    if Id(x) in KeysOf(r, Id) {
      var y :| y in r && Id(y) == Id(x);
      assert y == x;
    }
  }

  /** The distinct elements come out in the order of their first occurrences. */
  lemma DedupFirstOccurrence<T>(s: seq<T>)
    ensures forall i, j :: 0 <= i < j < |Dedup(s)| ==>
      Dedup(s)[i] in KeysOf(s, Id) && Dedup(s)[j] in KeysOf(s, Id) &&
      FirstIndexOfKey(s, Id, Dedup(s)[i]) < FirstIndexOfKey(s, Id, Dedup(s)[j])
  {
    UniqueByFirstOccurrence(s, Id);
    var r := Dedup(s);
    assert r == UniqueBy(s, Id);
    forall i | 0 <= i < |r| ensures Id(r[i]) == r[i] {
    }
  }

  /** De-duplicating a sorted sequence leaves it sorted. */
  lemma {:induction false} UniqueByKeepsSorted<T, K>(s: seq<T>, key: T -> K, order: T -> int)
    requires SortedBy(s, order)
    ensures SortedBy(UniqueBy(s, key), order)
    decreases |s|
  {
    if s != [] {
      var init := s[..|s| - 1];
      var last := s[|s| - 1];
      assert SortedBy(init, order);
      UniqueByKeepsSorted(init, key, order);
      var prefix := UniqueBy(init, key);
      forall y | y in prefix ensures order(y) <= order(last) {
        assert y in init;
        var m :| 0 <= m < |init| && init[m] == y;
        assert s[m] == y;
      }
    }
  }
}
