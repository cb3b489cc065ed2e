/**
 * PHP strings are byte strings. A byte is modelled as a `char` below 256, so
 * that string literals can be written directly.
 */
module ByteStrings {

  type Byte = c: char | c as int < 256
  type Bytes = seq<Byte>

  predicate IsDigit(c: Byte) { '0' <= c <= '9' }
  predicate IsUpper(c: Byte) { 'A' <= c <= 'Z' }
  predicate IsLower(c: Byte) { 'a' <= c <= 'z' }
  predicate IsAlnum(c: Byte) { IsDigit(c) || IsUpper(c) || IsLower(c) }

  /** ASCII lower-casing, the folding PCRE's `/i` applies outside UTF mode. */
  function ToLower(c: Byte): (r: Byte)
    ensures IsUpper(c) ==> IsLower(r)
    ensures !IsUpper(c) ==> r == c
  {
    if IsUpper(c) then (c as int + 32) as char else c
  }

  predicate EqualIgnoreCase(a: Bytes, b: Bytes) {
    |a| == |b| && forall i :: 0 <= i < |a| ==> ToLower(a[i]) == ToLower(b[i])
  }

  /** `pat` occurs in `s` at offset `i`, ignoring ASCII case. */
  predicate OccursIgnoreCaseAt(s: Bytes, pat: Bytes, i: nat) {
    i + |pat| <= |s| && EqualIgnoreCase(s[i..i + |pat|], pat)
  }

  /** The unanchored case-insensitive search of a literal pattern (`preg_match('/pat/i', s)`). */
  function ContainsIgnoreCase(s: Bytes, pat: Bytes): (r: bool)
    ensures r <==> exists i: nat :: OccursIgnoreCaseAt(s, pat, i)
    decreases |s|
  {
    if |s| < |pat| then
      assert forall i: nat :: !OccursIgnoreCaseAt(s, pat, i);
      false
    else if EqualIgnoreCase(s[..|pat|], pat) then
      assert OccursIgnoreCaseAt(s, pat, 0);
      true
    else
      var r := ContainsIgnoreCase(s[1..], pat);
      assert forall i: nat :: OccursIgnoreCaseAt(s[1..], pat, i) <==> OccursIgnoreCaseAt(s, pat, i + 1) by {
        forall i: nat ensures OccursIgnoreCaseAt(s[1..], pat, i) <==> OccursIgnoreCaseAt(s, pat, i + 1) {
          if i + |pat| <= |s[1..]| {
            assert s[1..][i..i + |pat|] == s[i + 1..i + 1 + |pat|];
          }
        }
      }
      assert !OccursIgnoreCaseAt(s, pat, 0);
      assert (exists i: nat :: OccursIgnoreCaseAt(s, pat, i)) ==> exists i: nat :: OccursIgnoreCaseAt(s[1..], pat, i) by {
        if exists i: nat :: OccursIgnoreCaseAt(s, pat, i) {
          var i: nat :| OccursIgnoreCaseAt(s, pat, i);
          assert i != 0;
          assert OccursIgnoreCaseAt(s[1..], pat, i - 1);
        }
      }
      r
  }

  /** The parts separated by one `sep` byte each (PHP's `implode`). */
  function Join(parts: seq<Bytes>, sep: Byte): Bytes {
    if |parts| == 0 then []
    else if |parts| == 1 then parts[0]
    else parts[0] + [sep] + Join(parts[1..], sep)
  }

  /** The maximal runs between occurrences of `sep` (PHP's `explode`); never empty. */
  function Split(s: Bytes, sep: Byte): (parts: seq<Bytes>)
    ensures |parts| >= 1
  {
    if |s| == 0 then [[]]
    else if s[0] == sep then [[]] + Split(s[1..], sep)
    else
      var rest := Split(s[1..], sep);
      [[s[0]] + rest[0]] + rest[1..]
  }

  /** Index of the first `c` in `s`, or `|s|` when there is none. */
  function IndexOf(s: Bytes, c: Byte): (i: nat)
    ensures i <= |s|
    ensures i < |s| ==> s[i] == c
    ensures forall j :: 0 <= j < i ==> s[j] != c
  {
    if |s| == 0 then 0
    else if s[0] == c then 0
    else 1 + IndexOf(s[1..], c)
  }

  lemma JoinSnoc(parts: seq<Bytes>, p: Bytes, sep: Byte)
    requires |parts| >= 1
    ensures Join(parts + [p], sep) == Join(parts, sep) + [sep] + p
  {
    if |parts| == 1 {
      assert parts + [p] == [parts[0], p];
    } else {
      assert (parts + [p])[1..] == parts[1..] + [p];
      JoinSnoc(parts[1..], p, sep);
    }
  }

  lemma SplitNoSep(a: Bytes, sep: Byte)
    requires sep !in a
    ensures Split(a, sep) == [a]
  {
    if |a| > 0 {
      SplitNoSep(a[1..], sep);
      assert [a[0]] + a[1..] == a;
    }
  }

  lemma {:induction false} SplitCons(a: Bytes, b: Bytes, sep: Byte)
    requires sep !in a
    ensures Split(a + [sep] + b, sep) == [a] + Split(b, sep)
  {
    if |a| == 0 {
      assert a + [sep] + b == [sep] + b;
      assert ([sep] + b)[1..] == b;
    } else {
      assert (a + [sep] + b)[1..] == a[1..] + [sep] + b;
      SplitCons(a[1..], b, sep);
      assert [a[0]] + a[1..] == a;
    }
  }

  /** Splitting a join at a separator that occurs in no part gives the parts back. */
  lemma {:induction false} SplitJoin(parts: seq<Bytes>, sep: Byte)
    requires |parts| >= 1
    requires forall i :: 0 <= i < |parts| ==> sep !in parts[i]
    ensures Split(Join(parts, sep), sep) == parts
  {
    if |parts| == 1 {
      SplitNoSep(parts[0], sep);
    } else {
      SplitJoin(parts[1..], sep);
      SplitCons(parts[0], Join(parts[1..], sep), sep);
      assert [parts[0]] + parts[1..] == parts;
    }
  }
}
