/**
 * The string primitives the file browser relies on, restated over `seq<char>`:
 * `toLowerCase` (ASCII only), `trim`, `split(sep)` with `pop()`, and `includes`.
 */
module Strings {

  // ---------------------------------------------------------------------
  // toLowerCase, restricted to ASCII letters

  predicate IsUpper(c: char) { 'A' <= c <= 'Z' }

  /** One character of `toLowerCase`: A-Z move to a-z, everything else is kept. */
  function LowerChar(c: char): (r: char)
    ensures !IsUpper(r)
    ensures !IsUpper(c) ==> r == c
    ensures IsUpper(c) ==> 'a' <= r <= 'z' && r as int - 'a' as int == c as int - 'A' as int
  {
    if IsUpper(c) then (c as int - 'A' as int + 'a' as int) as char else c
  }

  function ToLower(s: string): (r: string)
    ensures |r| == |s|
    ensures forall i :: 0 <= i < |s| ==> r[i] == LowerChar(s[i])
  {
    seq(|s|, i requires 0 <= i < |s| => LowerChar(s[i]))
  }

  predicate NoUpper(s: string) { forall i :: 0 <= i < |s| ==> !IsUpper(s[i]) }

  /** Lower-casing leaves no upper-case letter, and lower-casing twice changes nothing more. */
  lemma ToLowerIdempotent(s: string)
    ensures NoUpper(ToLower(s))
    ensures ToLower(ToLower(s)) == ToLower(s)
  {
  }

  /** On a string without upper-case letters, lower-casing is the identity. */
  lemma ToLowerOfLower(s: string)
    requires NoUpper(s)
    ensures ToLower(s) == s
  {
    assert forall i :: 0 <= i < |s| ==> ToLower(s)[i] == s[i];
  }

  // ---------------------------------------------------------------------
  // trim

  /**
   * ECMAScript's WhiteSpace and LineTerminator code points: tab, line tab,
   * form feed, space, no-break space, byte order mark, the Zs category, LF,
   * CR, line and paragraph separator.
   */
  const WhitespaceCodes: set<int> := {
    0x09, 0x0A, 0x0B, 0x0C, 0x0D, 0x20, 0xA0, 0x1680,
    0x2000, 0x2001, 0x2002, 0x2003, 0x2004, 0x2005, 0x2006, 0x2007, 0x2008, 0x2009, 0x200A,
    0x2028, 0x2029, 0x202F, 0x205F, 0x3000, 0xFEFF
  }

  predicate IsWhitespace(c: char) {
    c as int in WhitespaceCodes
  }

  predicate AllWhitespace(s: string) { forall i :: 0 <= i < |s| ==> IsWhitespace(s[i]) }

  /** How many whitespace characters `s` starts with. */
  function LeadingWhitespace(s: string): (n: nat)
    ensures n <= |s|
    ensures n == |s| || !IsWhitespace(s[n])
    decreases |s|
  {
    if s != [] && IsWhitespace(s[0]) then 1 + LeadingWhitespace(s[1..]) else 0
  }

  /** Where the trailing whitespace of `s` begins. */
  function TrailingWhitespaceStart(s: string): (n: nat)
    ensures n <= |s|
    ensures n == 0 || !IsWhitespace(s[n - 1])
    decreases |s|
  {
    if s != [] && IsWhitespace(s[|s| - 1]) then TrailingWhitespaceStart(s[..|s| - 1]) else |s|
  }

  /** The first half of `trim()`: drops leading whitespace. */
  function TrimStart(s: string): string
  {
    s[LeadingWhitespace(s)..]
  }

  /** The second half of `trim()`: drops trailing whitespace. */
  function TrimEnd(s: string): string
  {
    s[..TrailingWhitespaceStart(s)]
  }

  /** `trim()`: drops leading and trailing whitespace. */
  function Trim(s: string): string
  {
    TrimEnd(TrimStart(s))
  }

  /** All that `TrimStart` drops is whitespace. */
  lemma {:induction false} LeadingAreWhitespace(s: string)
    ensures forall i :: 0 <= i < LeadingWhitespace(s) ==> IsWhitespace(s[i])
    decreases |s|
  {
    if s != [] && IsWhitespace(s[0]) {
      LeadingAreWhitespace(s[1..]);
      forall i | 1 <= i < LeadingWhitespace(s) ensures IsWhitespace(s[i]) {
        assert s[i] == s[1..][i - 1];
      }
    }
  }

  /** All that `TrimEnd` drops is whitespace. */
  lemma {:induction false} TrailingAreWhitespace(s: string)
    ensures forall i :: TrailingWhitespaceStart(s) <= i < |s| ==> IsWhitespace(s[i])
    decreases |s|
  {
    if s != [] && IsWhitespace(s[|s| - 1]) {
      TrailingAreWhitespace(s[..|s| - 1]);
      forall i | TrailingWhitespaceStart(s) <= i < |s| - 1 ensures IsWhitespace(s[i]) {
        assert s[i] == s[..|s| - 1][i];
      }
    }
  }

  /** Trim keeps one contiguous slice of `s`, starting after the leading whitespace. */
  lemma TrimSlice(s: string)
    ensures LeadingWhitespace(s) + |Trim(s)| <= |s|
    ensures Trim(s) == s[LeadingWhitespace(s)..LeadingWhitespace(s) + |Trim(s)|]
  {
    var lo := LeadingWhitespace(s);
    var e := TrailingWhitespaceStart(s[lo..]);
    assert Trim(s) == s[lo..][..e];
  }

  /** Everything Trim removes, on either side of the slice it keeps, is whitespace. */
  lemma TrimDropsWhitespace(s: string)
    ensures forall i :: 0 <= i < LeadingWhitespace(s) ==> IsWhitespace(s[i])
    ensures forall i :: LeadingWhitespace(s) + |Trim(s)| <= i < |s| ==> IsWhitespace(s[i])
  {
    var t := TrimStart(s);
    var lo := LeadingWhitespace(s);
    LeadingAreWhitespace(s);
    TrailingAreWhitespace(t);
    forall i | lo + |Trim(s)| <= i < |s| ensures IsWhitespace(s[i]) {
      assert s[i] == t[i - lo];
    }
  }

  /** What Trim keeps neither starts nor ends with whitespace. */
  lemma TrimEdges(s: string)
    ensures Trim(s) == [] || (!IsWhitespace(Trim(s)[0]) && !IsWhitespace(Trim(s)[|Trim(s)| - 1]))
  {
    var t := TrimStart(s);
    var r := TrimEnd(t);
    assert r != [] ==> r[0] == t[0];
  }

  /** Trim yields the empty string exactly when every character is whitespace. */
  lemma TrimEmptyIff(s: string)
    ensures Trim(s) == [] <==> AllWhitespace(s)
  {
    TrimSlice(s);
    TrimDropsWhitespace(s);
    TrimEdges(s);
  }

  /** Trimming a trimmed string changes nothing. */
  lemma TrimIdempotent(s: string)
    ensures Trim(Trim(s)) == Trim(s)
  {
    TrimEdges(s);
  }

  /** Lower-casing maps whitespace to whitespace and non-whitespace to non-whitespace. */
  lemma LowerKeepsWhitespace(c: char)
    ensures IsWhitespace(LowerChar(c)) <==> IsWhitespace(c)
  {
  }

  // ---------------------------------------------------------------------
  // split(sep) and pop()

  /** The parts of a split put back together, with `sep` between neighbours. */
  function Join(parts: seq<string>, sep: char): string
    requires |parts| >= 1
    decreases |parts|
  {
    if |parts| == 1 then parts[0] else parts[0] + [sep] + Join(parts[1..], sep)
  }

  /** `s.split(sep)` for a one-character separator: never empty, parts free of `sep`. */
  function Split(s: string, sep: char): (r: seq<string>)
    ensures |r| >= 1
    ensures forall k :: 0 <= k < |r| ==> sep !in r[k]
    decreases |s|
  {
    if s == [] then [[]]
    else
      var rest := Split(s[1..], sep);
      if s[0] == sep then [[]] + rest else [[s[0]] + rest[0]] + rest[1..]
  }

  /** Joining the parts of a split gives back the original string. */
  lemma {:induction false} JoinSplit(s: string, sep: char)
    ensures Join(Split(s, sep), sep) == s
    decreases |s|
  {
    if s != [] {
      var rest := Split(s[1..], sep);
      JoinSplit(s[1..], sep);
      if s[0] == sep {
        assert Split(s, sep)[1..] == rest;
      } else if |rest| == 1 {
        assert Split(s, sep) == [[s[0]] + rest[0]];
        assert s == [s[0]] + s[1..];
      } else {
        var r := Split(s, sep);
        assert r[1..] == rest[1..];
        calc {
          Join(r, sep);
          r[0] + [sep] + Join(rest[1..], sep);
          [s[0]] + (rest[0] + [sep] + Join(rest[1..], sep));
          [s[0]] + Join(rest, sep);
          s;
        }
      }
    }
  }

  /** Splitting what was joined gives back the parts, when no part contains `sep`. */
  lemma {:induction false} SplitJoin(parts: seq<string>, sep: char)
    requires |parts| >= 1
    requires forall k :: 0 <= k < |parts| ==> sep !in parts[k]
    ensures Split(Join(parts, sep), sep) == parts
    decreases |parts|, |parts[0]|
  {
    var p := parts[0];
    if p == [] {
      if |parts| > 1 {
        var s := Join(parts, sep);
        assert s == [sep] + Join(parts[1..], sep);
        assert s[1..] == Join(parts[1..], sep);
        SplitJoin(parts[1..], sep);
      }
    } else {
      var s := Join(parts, sep);
      var tail := [p[1..]] + parts[1..];
      assert tail[1..] == parts[1..];
      assert s[1..] == Join(tail, sep);
      assert p[0] in p;
      SplitJoin(tail, sep);
      assert Split(s, sep) == [[p[0]] + p[1..]] + parts[1..];
      assert [p[0]] + p[1..] == p;
    }
  }

  /** `pop()`: the last element of a non-empty sequence. */
  function Last<T>(xs: seq<T>): T
    requires |xs| >= 1
  {
    xs[|xs| - 1]
  }

  /** A joined sequence ends with its last part, preceded by `sep` when there are several. */
  lemma {:induction false} JoinEndsWithLast(parts: seq<string>, sep: char)
    requires |parts| >= 1
    ensures var s, b := Join(parts, sep), Last(parts);
      && |b| <= |s| && s[|s| - |b|..] == b
      && (|parts| == 1 <==> |b| == |s|)
      && (|parts| > 1 ==> s[|s| - |b| - 1] == sep)
    decreases |parts|
  {
    if |parts| > 1 {
      JoinEndsWithLast(parts[1..], sep);
      var s, t := Join(parts, sep), Join(parts[1..], sep);
      assert s == (parts[0] + [sep]) + t;
      assert Last(parts) == Last(parts[1..]);
    }
  }

  // ---------------------------------------------------------------------
  // includes

  /** `q` occurs in `t` starting at index `i`. */
  predicate OccursAt(t: string, q: string, i: nat) {
    i + |q| <= |t| && t[i..i + |q|] == q
  }

  /** `t.includes(q)`: tries every start position from the left. */
  function Includes(t: string, q: string): bool
    decreases |t|
  {
    q <= t || (t != [] && Includes(t[1..], q))
  }

  /** Occurrences in `t` past its first character are the occurrences in `t[1..]`, shifted by one. */
  lemma OccursShift(t: string, q: string, i: nat)
    requires t != []
    ensures OccursAt(t, q, i + 1) <==> OccursAt(t[1..], q, i)
  {
    if i + 1 + |q| <= |t| {
      assert t[i + 1..i + 1 + |q|] == t[1..][i..i + |q|];
    }
  }

  /** `Includes` holds exactly when `q` occurs somewhere in `t`. */
  lemma {:induction false} IncludesIff(t: string, q: string)
    ensures Includes(t, q) <==> exists i: nat :: OccursAt(t, q, i)
    decreases |t|
  {
    assert OccursAt(t, q, 0) <==> q <= t;
    if q <= t {
      assert OccursAt(t, q, 0);
    } else if t == [] {
      assert forall i: nat :: !OccursAt(t, q, i);
    } else {
      IncludesIff(t[1..], q);
      if Includes(t[1..], q) {
        var i: nat :| OccursAt(t[1..], q, i);
        OccursShift(t, q, i);
      } else {
        forall i: nat | OccursAt(t, q, i) ensures false {
          OccursShift(t, q, i - 1);
        }
      }
    }
  }
}
