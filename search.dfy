/**
 * The filename filter of `render`: the query is lower-cased and trimmed
 * once, and an entry is kept when the query is empty or occurs in the
 * lower-cased text after the entry's last `/`.
 */
module Search {
  import opened Strings

  /** `(filter || "").toLowerCase().trim()` on a string argument. */
  function Normalize(filter: string): string
  {
    Trim(ToLower(filter))
  }

  /** `path.split("/").pop()`: the text after the last `/`, or all of `path` when it has none. */
  function Basename(path: string): string
  {
    Last(Split(path, '/'))
  }

  /** The predicate passed to `entries.filter`, for an already normalised query `q`. */
  predicate Keeps(q: string, entry: string)
  {
    q == [] || Includes(ToLower(Basename(entry)), q)
  }

  /** `entries.filter(...)` with a normalised query: the kept entries, in their order. */
  function Select(entries: seq<string>, q: string): seq<string>
    decreases |entries|
  {
    if entries == [] then []
    else
      var n := |entries| - 1;
      Select(entries[..n], q) + (if Keeps(q, entries[n]) then [entries[n]] else [])
  }

  /** The filtered list that `render(filter)` displays. */
  function Filter(entries: seq<string>, filter: string): seq<string>
  {
    Select(entries, Normalize(filter))
  }

  // ---------------------------------------------------------------------
  // Normalisation

  /** A normalised query has no upper-case letter and no surrounding whitespace, and normalising is idempotent. */
  lemma NormalizeShape(filter: string)
    ensures var q := Normalize(filter);
      && NoUpper(q)
      && (q == [] || (!IsWhitespace(q[0]) && !IsWhitespace(q[|q| - 1])))
      && Normalize(q) == q
  {
    var l := ToLower(filter);
    var q := Trim(l);
    TrimSlice(l);
    TrimEdges(l);
    ToLowerIdempotent(filter);
    assert NoUpper(q) by {
      var lo := |l| - |TrimStart(l)|;
      forall i | 0 <= i < |q| ensures !IsUpper(q[i]) {
        assert q[i] == l[lo + i];
      }
    }
    ToLowerOfLower(q);
    TrimIdempotent(l);
  }

  /** The query is empty exactly when the filter text is empty or only whitespace. */
  lemma NormalizeEmptyIff(filter: string)
    ensures Normalize(filter) == [] <==> AllWhitespace(filter)
  {
    var l := ToLower(filter);
    TrimEmptyIff(l);
    forall i | 0 <= i < |filter| ensures IsWhitespace(l[i]) <==> IsWhitespace(filter[i]) {
      LowerKeepsWhitespace(filter[i]);
    }
  }

  // ---------------------------------------------------------------------
  // Basename

  /** The basename is the `/`-free tail of the path that starts at its beginning or right after a `/`. */
  lemma BasenameShape(path: string)
    ensures var b := Basename(path);
      && |b| <= |path| && path[|path| - |b|..] == b
      && '/' !in b
      && (|b| == |path| || path[|path| - |b| - 1] == '/')
  {
    var parts := Split(path, '/');
    JoinSplit(path, '/');
    JoinEndsWithLast(parts, '/');
  }

  /** The tail described by `BasenameShape` is unique. */
  lemma TailUnique(path: string, b: string, b': string)
    requires |b| <= |path| && path[|path| - |b|..] == b && '/' !in b
    requires |b| == |path| || path[|path| - |b| - 1] == '/'
    requires |b'| <= |path| && path[|path| - |b'|..] == b' && '/' !in b'
    requires |b'| == |path| || path[|path| - |b'| - 1] == '/'
    ensures b == b'
  {
  }

  /** A path without `/` is its own basename. */
  lemma BasenameNoSlash(path: string)
    requires '/' !in path
    ensures Basename(path) == path
  {
    BasenameShape(path);
    TailUnique(path, Basename(path), path);
  }

  /** Whatever comes before the last `/` does not affect the basename. */
  lemma BasenameAfterDir(dir: string, name: string)
    requires '/' !in name
    ensures Basename(dir + "/" + name) == name
  {
    var path := dir + "/" + name;
    BasenameShape(path);
    assert path[|path| - |name|..] == name;
    assert path[|path| - |name| - 1] == '/';
    TailUnique(path, Basename(path), name);
  }

  // ---------------------------------------------------------------------
  // Matching

  /** An entry is kept exactly when the query occurs in its lower-cased basename (or the query is empty). */
  lemma KeepsIff(q: string, entry: string)
    ensures Keeps(q, entry) <==> (q == [] || exists i: nat :: OccursAt(ToLower(Basename(entry)), q, i))
  {
    IncludesIff(ToLower(Basename(entry)), q);
  }

  /** The `!q ||` short-circuit never changes the outcome: the empty string occurs in every basename. */
  lemma KeepsEmptyGuardRedundant(q: string, entry: string)
    ensures Keeps(q, entry) <==> Includes(ToLower(Basename(entry)), q)
  {
    var t := ToLower(Basename(entry));
    if q == [] {
      assert q <= t;
    }
  }

  /** Only the basename is searched: a directory part never makes an entry match or fail. */
  lemma KeepsIgnoresDirectory(q: string, dir: string, name: string)
    requires '/' !in name
    ensures Keeps(q, dir + "/" + name) <==> Keeps(q, name)
  {
    BasenameAfterDir(dir, name);
    BasenameNoSlash(name);
  }

  // ---------------------------------------------------------------------
  // Selection

  /** The indices of the kept entries, in increasing order. */
  ghost function KeptIndices(entries: seq<string>, q: string): (idx: seq<nat>)
    ensures forall k :: 0 <= k < |idx| ==> idx[k] < |entries|
    ensures forall k, m :: 0 <= k < m < |idx| ==> idx[k] < idx[m]
    ensures forall j :: 0 <= j < |entries| ==> (j in idx <==> Keeps(q, entries[j]))
    decreases |entries|
  {
    if entries == [] then []
    else
      var n := |entries| - 1;
      var prev := KeptIndices(entries[..n], q);
      assert forall j :: 0 <= j < n ==> entries[..n][j] == entries[j];
      prev + (if Keeps(q, entries[n]) then [n] else [])
  }

  /**
   * The selection is the subsequence of `entries` at exactly the kept
   * indices: it keeps the entries that match, drops the others, and keeps
   * their relative order.
   */
  lemma {:induction false} SelectIsSubsequence(entries: seq<string>, q: string)
    ensures var r, idx := Select(entries, q), KeptIndices(entries, q);
      |r| == |idx| && forall k :: 0 <= k < |r| ==> r[k] == entries[idx[k]]
    decreases |entries|
  {
    if entries != [] {
      var n := |entries| - 1;
      SelectIsSubsequence(entries[..n], q);
      var prev := KeptIndices(entries[..n], q);
      forall k | 0 <= k < |prev| ensures entries[..n][prev[k]] == entries[prev[k]] {
      }
    }
  }

  /** The selection is never longer than the list it selects from. */
  lemma SelectLength(entries: seq<string>, q: string)
    ensures |Select(entries, q)| <= |entries|
  {
    SelectIsSubsequence(entries, q);
    var idx := KeptIndices(entries, q);
    IncreasingIndicesBound(idx, |entries|);
  }

  /** Strictly increasing indices below `n` number at most `n`. */
  lemma {:induction false} IncreasingIndicesBound(idx: seq<nat>, n: nat)
    requires forall k :: 0 <= k < |idx| ==> idx[k] < n
    requires forall k, m :: 0 <= k < m < |idx| ==> idx[k] < idx[m]
    ensures |idx| <= n
    decreases |idx|
  {
    if idx != [] {
      var last := idx[|idx| - 1];
      IncreasingIndicesBound(idx[..|idx| - 1], last);
    }
  }

  /** An entry is in the selection exactly when it is in the list and kept. */
  lemma SelectMembership(entries: seq<string>, q: string, e: string)
    ensures e in Select(entries, q) <==> e in entries && Keeps(q, e)
  {
    SelectIsSubsequence(entries, q);
    var r, idx := Select(entries, q), KeptIndices(entries, q);
    if e in entries && Keeps(q, e) {
      var j :| 0 <= j < |entries| && entries[j] == e;
      var k :| 0 <= k < |idx| && idx[k] == j;
      assert r[k] == e;
    }
  }

  /** With an empty query nothing is dropped. */
  lemma {:induction false} SelectAll(entries: seq<string>)
    ensures Select(entries, []) == entries
    decreases |entries|
  {
    if entries != [] {
      var n := |entries| - 1;
      SelectAll(entries[..n]);
      assert entries == entries[..n] + [entries[n]];
    }
  }

  /** Filtering the filtered list again changes nothing. */
  lemma {:induction false} SelectIdempotent(entries: seq<string>, q: string)
    ensures Select(Select(entries, q), q) == Select(entries, q)
    decreases |entries|
  {
    if entries != [] {
      var n := |entries| - 1;
      var prev := Select(entries[..n], q);
      SelectIdempotent(entries[..n], q);
      SelectConcat(prev, if Keeps(q, entries[n]) then [entries[n]] else [], q);
      SelectAll1(entries[n], q);
    }
  }

  /** Selection distributes over concatenation. */
  lemma {:induction false} SelectConcat(a: seq<string>, b: seq<string>, q: string)
    ensures Select(a + b, q) == Select(a, q) + Select(b, q)
    decreases |b|
  {
    if b == [] {
      assert a + b == a;
    } else {
      var n := |b| - 1;
      assert (a + b)[..|a + b| - 1] == a + b[..n];
      assert (a + b)[|a + b| - 1] == b[n];
      SelectConcat(a, b[..n], q);
    }
  }

  /** A one-entry list is selected whole or not at all. */
  lemma SelectAll1(e: string, q: string)
    ensures Select([e], q) == if Keeps(q, e) then [e] else []
  {
    assert [e][..0] == [];
  }

  // ---------------------------------------------------------------------
  // The filter as `render` applies it

  /** A blank filter (empty or only whitespace) shows every entry, unchanged and in order. */
  lemma FilterBlank(entries: seq<string>, filter: string)
    requires AllWhitespace(filter)
    ensures Filter(entries, filter) == entries
  {
    NormalizeEmptyIff(filter);
    SelectAll(entries);
  }

  /**
   * The filter is exact: an entry is shown iff it is listed and the
   * normalised query is empty or occurs in the lower-cased basename.
   */
  lemma FilterExact(entries: seq<string>, filter: string, e: string)
    ensures e in Filter(entries, filter) <==>
      e in entries && (Normalize(filter) == [] || exists i: nat :: OccursAt(ToLower(Basename(e)), Normalize(filter), i))
  {
    SelectMembership(entries, Normalize(filter), e);
    KeepsIff(Normalize(filter), e);
  }

  /** The filtered list is the subsequence of entries at the kept positions, no longer than the list. */
  lemma FilterIsSubsequence(entries: seq<string>, filter: string)
    ensures var r, idx := Filter(entries, filter), KeptIndices(entries, Normalize(filter));
      && |r| == |idx| <= |entries|
      && (forall k :: 0 <= k < |r| ==> r[k] == entries[idx[k]])
      && (forall k, m :: 0 <= k < m < |idx| ==> idx[k] < idx[m])
      && (forall j :: 0 <= j < |entries| ==> (j in idx <==> Keeps(Normalize(filter), entries[j])))
  {
    SelectIsSubsequence(entries, Normalize(filter));
    SelectLength(entries, Normalize(filter));
  }

  /** Re-filtering what is shown by the same filter changes nothing. */
  lemma FilterIdempotent(entries: seq<string>, filter: string)
    ensures Filter(Filter(entries, filter), filter) == Filter(entries, filter)
  {
    SelectIdempotent(entries, Normalize(filter));
  }
}
