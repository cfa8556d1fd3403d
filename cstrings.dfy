/**
 * The C library string routines the proxy relies on (strstr, strtok, sscanf's %s,
 * strcasecmp, strcat), stated over NUL-free strings.
 */
module CStrings {
  import opened Wrappers

  /** `pat` occurs in `s` starting at index i. */
  predicate OccursAt(s: string, pat: string, i: nat)
  {
    i + |pat| <= |s| && s[i..i + |pat|] == pat
  }

  /** `strstr(s, pat)`: the index of the first occurrence of `pat` in `s`, if any. */
  function Find(s: string, pat: string): (r: Option<nat>)
    ensures r.Some? ==> OccursAt(s, pat, r.value)
    ensures r.Some? ==> forall j: nat :: j < r.value ==> !OccursAt(s, pat, j)
    ensures r.None? ==> forall j: nat :: !OccursAt(s, pat, j)
    decreases |s|
  {
    if |s| < |pat| then None
    else if s[..|pat|] == pat then Some(0)
    else
      assert !OccursAt(s, pat, 0);
      OccursShift(s, pat);
      match Find(s[1..], pat)
      case None => None
      case Some(k) => Some(k + 1)
  }

  lemma OccursShift(s: string, pat: string)
    requires s != []
    ensures forall j: nat :: 1 <= j ==> (OccursAt(s, pat, j) <==> OccursAt(s[1..], pat, j - 1))
  {
    forall j: nat | 1 <= j
      ensures OccursAt(s, pat, j) <==> OccursAt(s[1..], pat, j - 1)
    {
      if j + |pat| <= |s| {
        assert s[1..][j - 1..j - 1 + |pat|] == s[j..j + |pat|];
      }
    }
  }

  /** An occurrence with none before it is the one `strstr` finds. */
  lemma FindIsFirst(s: string, pat: string, i: nat)
    requires OccursAt(s, pat, i)
    requires forall j: nat :: j < i ==> !OccursAt(s, pat, j)
    ensures Find(s, pat) == Some(i)
  {
  }

  /** A one-character pattern occurs exactly where that character is. */
  lemma OccursAtChar(s: string, c: char)
    ensures forall j: nat :: OccursAt(s, [c], j) <==> j < |s| && s[j] == c
  {
    forall j: nat
      ensures OccursAt(s, [c], j) <==> j < |s| && s[j] == c
    {
      if j < |s| {
        assert s[j..j + 1] == [s[j]];
      }
    }
  }

  /** `strstr(s, pat) != NULL`. */
  predicate Contains(s: string, pat: string)
  {
    Find(s, pat).Some?
  }

  /** The strings C can hold whole: no NUL byte. */
  predicate NulFree(s: string)
  {
    forall i :: 0 <= i < |s| ==> s[i] != '\0'
  }

  /** `isspace` in the C locale. */
  predicate IsSpace(c: char)
  {
    c == ' ' || c == '\t' || c == '\n' || c == '\r' || c == '\U{0B}' || c == '\U{0C}'
  }

  predicate NoSpace(w: string)
  {
    forall i :: 0 <= i < |w| ==> !IsSpace(w[i])
  }

  /** The length of the leading run of non-space characters of s. */
  function WordLength(s: string): (n: nat)
    ensures n <= |s| && NoSpace(s[..n])
    ensures n == |s| || IsSpace(s[n])
  {
    if s == [] || IsSpace(s[0]) then 0
    else
      var n := 1 + WordLength(s[1..]);
      assert s[..n] == [s[0]] + s[1..][..n - 1];
      n
  }

  /** The whitespace-separated fields that successive %s conversions of `sscanf` read. */
  function Tokens(s: string): (ts: seq<string>)
    ensures forall k :: 0 <= k < |ts| ==> ts[k] != [] && NoSpace(ts[k])
    decreases |s|
  {
    if s == [] then []
    else if IsSpace(s[0]) then Tokens(s[1..])
    else
      var n := WordLength(s);
      [s[..n]] + Tokens(s[n..])
  }

  /** A word followed by white space is read as one field, and reading resumes after it. */
  lemma TokensOfWord(w: string, sp: char, rest: string)
    requires w != [] && NoSpace(w) && IsSpace(sp)
    ensures Tokens(w + [sp] + rest) == [w] + Tokens(rest)
  {
    var s := w + [sp] + rest;
    var n := WordLength(s);
    assert s[|w|] == sp;
    assert forall i :: 0 <= i < |w| ==> s[i] == w[i];
    assert n == |w|;
    assert s[..n] == w;
    assert s[n..] == [sp] + rest;
    assert ([sp] + rest)[1..] == rest;
  }

  /** Leading white space is skipped before the first field. */
  lemma TokensSkipSpace(sp: char, rest: string)
    requires IsSpace(sp)
    ensures Tokens([sp] + rest) == Tokens(rest)
  {
    assert ([sp] + rest)[1..] == rest;
  }

  /** A lone word is read as exactly one field. */
  lemma TokensOfLastWord(w: string)
    requires w != [] && NoSpace(w)
    ensures Tokens(w) == [w]
  {
    var n := WordLength(w);
    assert n == |w|;
    assert w[..n] == w;
    assert w[n..] == [];
  }

  /** ASCII lower-casing, as `strcasecmp` compares. */
  function Lower(c: char): char
  {
    if 'A' <= c <= 'Z' then (c as int + 32) as char else c
  }

  /** `strcasecmp(a, b) == 0`. */
  predicate EqualIgnoringCase(a: string, b: string)
  {
    |a| == |b| && forall i :: 0 <= i < |a| ==> Lower(a[i]) == Lower(b[i])
  }

  /** The strings `strcasecmp` equates with "GET" are its eight spellings in mixed case. */
  lemma EqualIgnoringCaseGet(m: string)
    ensures EqualIgnoringCase(m, "GET") <==>
      |m| == 3 && m[0] in "gG" && m[1] in "eE" && m[2] in "tT"
  {
    if |m| == 3 && EqualIgnoringCase(m, "GET") {
      assert Lower(m[0]) == 'g' && Lower(m[1]) == 'e' && Lower(m[2]) == 't';
    }
  }

  /** The leading characters of s up to (not including) the first d. */
  function TakeUntil(s: string, d: char): (w: string)
    ensures |w| <= |s| && w == s[..|w|]
    ensures d !in w
    ensures |w| == |s| || s[|w|] == d
  {
    if s == [] || s[0] == d then [] else [s[0]] + TakeUntil(s[1..], d)
  }

  /**
   * `strtok(s, d)` on a new string: leading d's are skipped and the token runs up to the
   * next d; there is none when s holds nothing but d's.
   */
  function FirstToken(s: string, d: char): (r: Option<string>)
    ensures r.None? <==> forall i :: 0 <= i < |s| ==> s[i] == d
    ensures r.Some? ==> r.value != [] && d !in r.value
  {
    if s == [] then None
    else if s[0] == d then FirstToken(s[1..], d)
    else Some(TakeUntil(s, d))
  }

  /** Leading delimiters are skipped before the token. */
  lemma FirstTokenSkipDelimiter(d: char, s: string)
    ensures FirstToken([d] + s, d) == FirstToken(s, d)
  {
    assert ([d] + s)[1..] == s;
  }

  /** A token not starting with d and ended by d (or by the end) is the one `strtok` returns. */
  lemma FirstTokenOfPrefix(w: string, d: char, rest: string)
    requires w != [] && d !in w && (rest == [] || rest[0] == d)
    ensures FirstToken(w + rest, d) == Some(w)
  {
    var s := w + rest;
    var t := TakeUntil(s, d);
    assert forall i :: 0 <= i < |w| ==> s[i] == w[i] && s[i] != d;
    assert |w| < |s| ==> s[|w|] == d;
    assert |t| == |w|;
    assert t == w;
  }

  /** The bytes of a sequence of strings written one after the other. */
  function Concat(parts: seq<string>): string
  {
    if parts == [] then [] else Concat(parts[..|parts| - 1]) + parts[|parts| - 1]
  }

  /** Writing NUL-free strings one after the other gives a NUL-free string. */
  lemma {:induction false} ConcatNulFree(parts: seq<string>)
    requires forall k :: 0 <= k < |parts| ==> NulFree(parts[k])
    ensures NulFree(Concat(parts))
    decreases |parts|
  {
    if parts != [] {
      ConcatNulFree(parts[..|parts| - 1]);
    }
  }
}
