/** The string operations the application relies on, with the meaning the
    JavaScript `String` methods it calls give them. Characters are compared
    exactly; the only case-insensitive comparison is the ASCII one used for
    file extensions. */
module Text {
  import opened Base

  /** `p` occurs in `s` starting at index `i`. */
  predicate OccursAt(s: string, p: string, i: nat) {
    i + |p| <= |s| && s[i..i + |p|] == p
  }

  /** `s.includes(p)` */
  predicate Contains(s: string, p: string) {
    exists i: nat | i <= |s| :: OccursAt(s, p, i)
  }

  /** `s.endsWith(suffix)` */
  predicate EndsWith(s: string, suffix: string) {
    |suffix| <= |s| && s[|s| - |suffix|..] == suffix
  }

  /** The first occurrence of `p` in `s` at or after `from`. */
  function IndexFrom(s: string, p: string, from: nat): (r: Option<nat>)
    decreases |s| - from
    ensures r.Some? ==> from <= r.value && OccursAt(s, p, r.value)
    ensures r.Some? ==> forall k: nat :: from <= k < r.value ==> !OccursAt(s, p, k)
    ensures r.None? ==> forall k: nat :: from <= k ==> !OccursAt(s, p, k)
  {
    if from + |p| > |s| then None
    else if s[from..from + |p|] == p then Some(from)
    else IndexFrom(s, p, from + 1)
  }

  /** `s.indexOf(p)`, with `None` for `-1`. */
  function IndexOf(s: string, p: string): (r: Option<nat>)
    ensures r.Some? <==> Contains(s, p)
    ensures r.Some? ==> OccursAt(s, p, r.value)
    ensures r.Some? ==> forall k: nat :: k < r.value ==> !OccursAt(s, p, k)
  {
    IndexFrom(s, p, 0)
  }

  /** Any occurrence at or before which nothing earlier occurs is the first one. */
  lemma FirstOccurrence(s: string, p: string, j: nat)
    requires OccursAt(s, p, j)
    requires forall k: nat :: k < j ==> !OccursAt(s, p, k)
    ensures IndexOf(s, p) == Some(j)
  {
    assert Contains(s, p);
  }

  /** `s.replace(p, q)` for a string pattern `p`: only the first occurrence
      is replaced, and `s` is returned unchanged when `p` does not occur. The
      replacement is taken literally, which is what JavaScript does when `q`
      holds no `$`. */
  function ReplaceFirst(s: string, p: string, q: string): (r: string)
    requires '$' !in q
    ensures !Contains(s, p) ==> r == s
    ensures Contains(s, p) ==>
      var i := IndexOf(s, p).value;
      |r| == |s| - |p| + |q| && r[..i] == s[..i] && r[i..i + |q|] == q && r[i + |q|..] == s[i + |p|..]
  {
    match IndexOf(s, p)
    case None => s
    case Some(i) => s[..i] + q + s[i + |p|..]
  }

  /** `s` with `b` spliced in at index `i`. */
  function Insert(s: string, i: nat, b: string): string
    requires i <= |s|
  {
    s[..i] + b + s[i..]
  }

  /** `s` with the `n` characters starting at index `i` cut out. */
  function Erase(s: string, i: nat, n: nat): string
    requires i + n <= |s|
  {
    s[..i] + s[i + n..]
  }

  lemma EraseInsert(s: string, i: nat, b: string)
    requires i <= |s|
    ensures |Insert(s, i, b)| == |s| + |b|
    ensures Erase(Insert(s, i, b), i, |b|) == s
  {
    var t := Insert(s, i, b);
    assert t[..i] == s[..i];
    assert t[i + |b|..] == s[i..];
  }

  /** Replacing the first occurrence of `p` by `b + p` is splicing `b` in
      just before that occurrence. */
  lemma ReplaceFirstIsInsert(s: string, p: string, b: string)
    requires '$' !in b + p
    requires Contains(s, p)
    ensures ReplaceFirst(s, p, b + p) == Insert(s, IndexOf(s, p).value, b)
  {
    var i := IndexOf(s, p).value;
    assert s[i..i + |p|] == p;
    assert s[i..] == p + s[i + |p|..];
  }

  // ----- Where occurrences go when a block is spliced into a string -----

  /** A block that can never take part in an occurrence of `p`: it is not
      empty, its first and last characters are not characters of `p`, and
      `p` does not occur inside it. */
  predicate Inert(b: string, p: string) {
    |b| > 0 && b[0] !in p && b[|b| - 1] !in p && !Contains(b, p)
  }

  /** No occurrence of `p` in `s` straddles index `i`. */
  predicate NoOccurrenceAcross(s: string, p: string, i: nat) {
    forall k: nat :: OccursAt(s, p, k) ==> k + |p| <= i || i <= k
  }

  /** The index an occurrence at `k` moves to when `n` characters are spliced
      in at index `i`. */
  function Shift(k: nat, i: nat, n: nat): nat {
    if k < i then k else k + n
  }

  /** Where an occurrence lies relative to index `i`: wholly before it,
      wholly after it, or across it, in which case the character at `i` is a
      character of `p` other than its first. */
  lemma OccurrenceAround(s: string, p: string, i: nat, k: nat)
    requires i < |s|
    ensures OccursAt(s, p, k) && k < i < k + |p| ==> p[i - k] == s[i] && 0 < i - k < |p|
  {
    if OccursAt(s, p, k) && k < i < k + |p| {
      assert s[k..k + |p|][i - k] == s[i];
    }
  }

  /** If the character at `i` appears in `p` only as its first character, no
      occurrence of `p` can straddle `i`. */
  lemma StartOfTagIsBoundary(s: string, p: string, i: nat)
    requires i < |s|
    requires forall m :: 0 < m < |p| ==> p[m] != s[i]
    ensures NoOccurrenceAcross(s, p, i)
  {
    forall k: nat ensures OccursAt(s, p, k) ==> k + |p| <= i || i <= k {
      OccurrenceAround(s, p, i, k);
    }
  }

  /** How an occurrence of `p` at `k` in `Insert(s, i, b)` relates to `s` and
      `b`: away from the block it is an occurrence in `s`; inside the block
      it is an occurrence in `b`; touching an edge of the block it contains
      the block's first or last character. */
  lemma OccurrenceInInsert(s: string, i: nat, b: string, p: string, k: nat)
    requires i <= |s| && |b| > 0
    ensures k + |p| <= i ==> (OccursAt(Insert(s, i, b), p, k) <==> OccursAt(s, p, k))
    ensures i + |b| <= k ==> (OccursAt(Insert(s, i, b), p, k) <==> OccursAt(s, p, k - |b|))
    ensures OccursAt(Insert(s, i, b), p, k) && k < i < k + |p| ==> b[0] in p
    ensures OccursAt(Insert(s, i, b), p, k) && i <= k && k + |p| <= i + |b| ==> OccursAt(b, p, k - i)
    ensures OccursAt(Insert(s, i, b), p, k) && k < i + |b| < k + |p| ==> b[|b| - 1] in p
  {
    var t := Insert(s, i, b);
    assert |t| == |s| + |b|;
    assert t[..i] == s[..i];
    assert t[i..i + |b|] == b;
    assert t[i + |b|..] == s[i..];
    if k + |p| <= i {
      assert t[k..k + |p|] == s[k..k + |p|];
    }
    if i + |b| <= k && k + |p| <= |t| {
      assert t[k..k + |p|] == s[k - |b|..k - |b| + |p|];
    }
    if OccursAt(t, p, k) && k < i < k + |p| {
      assert p[i - k] == t[i];
    }
    if OccursAt(t, p, k) && i <= k && k + |p| <= i + |b| {
      assert b[k - i..k - i + |p|] == t[k..k + |p|];
    }
    if OccursAt(t, p, k) && k < i + |b| < k + |p| {
      assert p[i + |b| - 1 - k] == t[i + |b| - 1];
    }
  }

  /** Occurrences of `p` in `Insert(s, i, b)` for an inert `b` are exactly
      the occurrences in `s`, shifted past the block when they come after it. */
  lemma OccursInInsert(s: string, i: nat, b: string, p: string, k: nat)
    requires i <= |s| && Inert(b, p)
    requires NoOccurrenceAcross(s, p, i)
    ensures OccursAt(Insert(s, i, b), p, k) ==> (k < i || i + |b| <= k)
    ensures k < i ==> (OccursAt(Insert(s, i, b), p, k) <==> OccursAt(s, p, k))
    ensures i + |b| <= k ==> (OccursAt(Insert(s, i, b), p, k) <==> OccursAt(s, p, k - |b|))
  {
    OccurrenceInInsert(s, i, b, p, k);
  }

  /** The first occurrence of `p` after splicing an inert block in at `i` is
      the first occurrence before, shifted past the block if it came at or
      after `i`. */
  lemma IndexOfInsert(s: string, i: nat, b: string, p: string)
    requires i <= |s| && Inert(b, p)
    requires NoOccurrenceAcross(s, p, i)
    ensures IndexOf(s, p).None? ==> IndexOf(Insert(s, i, b), p).None?
    ensures IndexOf(s, p).Some? ==>
      IndexOf(Insert(s, i, b), p) == Some(Shift(IndexOf(s, p).value, i, |b|))
  {
    var t := Insert(s, i, b);
    match IndexOf(s, p)
    case None =>
      forall k: nat ensures !OccursAt(t, p, k) {
        OccursInInsert(s, i, b, p, k);
      }
    case Some(j) =>
      var j' := Shift(j, i, |b|);
      OccursInInsert(s, i, b, p, j');
      forall k: nat | k < j' ensures !OccursAt(t, p, k) {
        OccursInInsert(s, i, b, p, k);
      }
      FirstOccurrence(t, p, j');
  }

  // ----- Blocks written out line by line -----

  /** The lines of a text block, concatenated. */
  function Join(lines: seq<string>): string {
    if |lines| == 0 then "" else lines[0] + Join(lines[1..])
  }

  /** A line that cannot hold the closing tag `p` (which starts with `</`):
      it lacks `<`, or lacks `/`, or lacks the tag's first letter; and its
      last character is not a character of `p`. */
  predicate LineAvoids(line: string, p: string) {
    && |p| > 2 && p[0] == '<' && p[1] == '/'
    && |line| > 0 && line[|line| - 1] !in p
    && ('<' !in line || '/' !in line || p[2] !in line)
  }

  lemma MissingCharacter(s: string, p: string, c: char)
    requires c in p && c !in s
    ensures !Contains(s, p)
  {
  }

  /** A piece `p` can only touch through its first character. */
  predicate Avoids(b: string, p: string) {
    |b| > 0 && b[|b| - 1] !in p && !Contains(b, p)
  }

  /** A joined block none of whose lines can hold `p` cannot hold it either:
      an occurrence across two lines would contain the end of a line. */
  lemma {:induction false} JoinAvoids(lines: seq<string>, p: string)
    requires |lines| > 0
    requires forall k :: 0 <= k < |lines| ==> LineAvoids(lines[k], p)
    ensures Avoids(Join(lines), p)
  {
    var line := lines[0];
    var p2 := p[2];
    assert LineAvoids(line, p);
    assert '<' in p && '/' in p && p2 in p;
    if '<' !in line {
      MissingCharacter(line, p, '<');
    } else if '/' !in line {
      MissingCharacter(line, p, '/');
    } else {
      MissingCharacter(line, p, p2);
    }
    if |lines| == 1 {
      assert Join(lines) == line + "";
      assert Join(lines) == line;
    } else {
      var rest := lines[1..];
      assert forall k :: 0 <= k < |rest| ==> rest[k] == lines[k + 1];
      JoinAvoids(rest, p);
      assert Join(lines) == line + Join(rest);
      AvoidsConcat(line, Join(rest), p);
    }
  }

  /** A block whose lines avoid `p` and whose first character is not in `p`
      is inert. */
  lemma JoinInert(lines: seq<string>, p: string)
    requires |lines| > 0 && |lines[0]| > 0 && lines[0][0] !in p
    requires forall k :: 0 <= k < |lines| ==> LineAvoids(lines[k], p)
    ensures Inert(Join(lines), p)
  {
    JoinAvoids(lines, p);
    assert Join(lines) == lines[0] + Join(lines[1..]);
  }

  /** An occurrence in `a + b` lies in `a`, lies in `b`, or contains the
      last character of `a`. */
  lemma OccurrenceInConcat(a: string, b: string, p: string, k: nat)
    requires |a| > 0
    ensures OccursAt(a + b, p, k) ==>
      OccursAt(a, p, k) || (|a| <= k && OccursAt(b, p, k - |a|)) || a[|a| - 1] in p
  {
    var t := a + b;
    if OccursAt(t, p, k) {
      if k + |p| <= |a| {
        assert t[k..k + |p|] == a[k..k + |p|];
      } else if k >= |a| {
        assert t[|a|..] == b;
        assert t[k..k + |p|] == b[k - |a|..k - |a| + |p|];
      } else {
        assert p[|a| - 1 - k] == t[|a| - 1];
      }
    }
  }

  /** Two pieces that avoid `p` still avoid it when put together. */
  lemma AvoidsConcat(a: string, b: string, p: string)
    requires Avoids(a, p) && Avoids(b, p)
    ensures Avoids(a + b, p)
  {
    var t := a + b;
    assert t[|t| - 1] == b[|b| - 1];
    forall k: nat ensures !OccursAt(t, p, k) {
      OccurrenceInConcat(a, b, p, k);
    }
  }

  /** A character found in no line is not in their concatenation. */
  lemma {:induction false} JoinLacks(lines: seq<string>, c: char)
    requires forall k :: 0 <= k < |lines| ==> c !in lines[k]
    ensures c !in Join(lines)
  {
    if |lines| > 0 {
      var rest := lines[1..];
      assert forall k :: 0 <= k < |rest| ==> rest[k] == lines[k + 1];
      JoinLacks(rest, c);
    }
  }

  // ----- ASCII case folding, as a case-insensitive regular expression uses it -----

  function LowerAscii(c: char): char {
    if 'A' <= c <= 'Z' then (c as int + 32) as char else c
  }

  /** `a` and `b` are equal up to the case of ASCII letters. */
  predicate EqualIgnoringCase(a: string, b: string) {
    |a| == |b| && forall k :: 0 <= k < |a| ==> LowerAscii(a[k]) == LowerAscii(b[k])
  }

  predicate EndsWithIgnoringCase(s: string, suffix: string) {
    |suffix| <= |s| && EqualIgnoringCase(s[|s| - |suffix|..], suffix)
  }
}
