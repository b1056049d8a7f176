/**
 * Slug construction of the article service: `createSlug` (lower-case, each space to `-`,
 * strip everything outside `[A-Za-z0-9_-]`) and the candidate slugs `generateSlug` tries,
 * `title`, `title + " 1"`, `title + " 2"`, ... each passed through `createSlug`.
 */
module Slugify {

  /** The JavaScript regular-expression class `\w` (without the `u` flag): ASCII letters, digits and `_`. */
  predicate IsWordChar(c: char) {
    'a' <= c <= 'z' || 'A' <= c <= 'Z' || '0' <= c <= '9' || c == '_'
  }

  /** The characters a slug is made of. */
  predicate IsSlugChar(c: char) {
    'a' <= c <= 'z' || '0' <= c <= '9' || c == '_' || c == '-'
  }

  predicate IsSlug(s: string) {
    forall i :: 0 <= i < |s| ==> IsSlugChar(s[i])
  }

  /** `toLowerCase` on one character, for the ASCII range. */
  function LowerChar(c: char): char {
    if 'A' <= c <= 'Z' then (c as int - 'A' as int + 'a' as int) as char else c
  }

  /** `title.toLowerCase()` */
  function ToLowerCase(s: string): (r: string)
    ensures |r| == |s|
    ensures forall i :: 0 <= i < |s| ==> !('A' <= r[i] <= 'Z')
    ensures forall i :: 0 <= i < |s| && !('A' <= s[i] <= 'Z') ==> r[i] == s[i]
    ensures forall i :: 0 <= i < |s| && 'A' <= s[i] <= 'Z' ==> r[i] as int == s[i] as int + 32
  {
    seq(|s|, i requires 0 <= i < |s| => LowerChar(s[i]))
  }

  /** `.replace(/ /g, "-")`: every single space becomes one hyphen; runs are not collapsed. */
  function ReplaceSpaces(s: string): (r: string)
    ensures |r| == |s|
    ensures ' ' !in r
    ensures forall i :: 0 <= i < |s| && s[i] != ' ' ==> r[i] == s[i]
    ensures forall i :: 0 <= i < |s| && s[i] == ' ' ==> r[i] == '-'
  {
    seq(|s|, i requires 0 <= i < |s| => if s[i] == ' ' then '-' else s[i])
  }

  /** `.replace(/[^\w-]+/g, "")`: removing every maximal run of other characters removes each of them. */
  function StripNonWord(s: string): (r: string)
    ensures |r| <= |s|
    ensures forall c :: c in r <==> c in s && (IsWordChar(c) || c == '-')
  {
    if s == [] then []
    else (if IsWordChar(s[0]) || s[0] == '-' then [s[0]] else []) + StripNonWord(s[1..])
  }

  /** `createSlug` of article.service.ts. */
  function CreateSlug(title: string): (r: string)
    ensures IsSlug(r)
    ensures |r| <= |title|
  {
    var spaced := ReplaceSpaces(ToLowerCase(title));
    assert forall c :: c in spaced ==> !('A' <= c <= 'Z');
    var r := StripNonWord(spaced);
    assert forall i :: 0 <= i < |r| ==> r[i] in r;
    r
  }

  /** What `CreateSlug` makes of a single character. */
  function SlugOfChar(c: char): string {
    if c == ' ' then "-"
    else if 'A' <= c <= 'Z' then [LowerChar(c)]
    else if IsWordChar(c) || c == '-' then [c]
    else ""
  }

  lemma StripNonWordAppend(a: string, b: string)
    ensures StripNonWord(a + b) == StripNonWord(a) + StripNonWord(b)
  {
    if a == [] {
      assert a + b == b;
    } else {
      assert (a + b)[1..] == a[1..] + b;
      StripNonWordAppend(a[1..], b);
    }
  }

  /** `CreateSlug` works character by character, so it distributes over concatenation. */
  lemma {:induction false} CreateSlugAppend(a: string, b: string)
    ensures CreateSlug(a + b) == CreateSlug(a) + CreateSlug(b)
  {
    assert ReplaceSpaces(ToLowerCase(a + b)) == ReplaceSpaces(ToLowerCase(a)) + ReplaceSpaces(ToLowerCase(b));
    StripNonWordAppend(ReplaceSpaces(ToLowerCase(a)), ReplaceSpaces(ToLowerCase(b)));
  }

  /** One character: a space gives one `-`, an upper-case letter its lower-case form, a slug character itself, anything else nothing. */
  lemma CreateSlugOfChar(c: char)
    ensures CreateSlug([c]) == SlugOfChar(c)
  {
    var t := ReplaceSpaces(ToLowerCase([c]));
    assert t == [if c == ' ' then '-' else LowerChar(c)];
    assert t[1..] == [];
    assert StripNonWord(t) == (if IsWordChar(t[0]) || t[0] == '-' then [t[0]] else []) + StripNonWord([]);
  }

  /** The per-character description of `CreateSlug`, for a non-empty title. */
  lemma {:induction false} CreateSlugUncons(title: string)
    requires title != []
    ensures CreateSlug(title) == SlugOfChar(title[0]) + CreateSlug(title[1..])
  {
    assert title == [title[0]] + title[1..];
    CreateSlugAppend([title[0]], title[1..]);
    CreateSlugOfChar(title[0]);
  }

  lemma StripNonWordIsSlug(s: string)
    requires forall i :: 0 <= i < |s| ==> !('A' <= s[i] <= 'Z')
    ensures IsSlug(StripNonWord(s))
  {
    if s != [] {
      StripNonWordIsSlug(s[1..]);
    }
  }

  /** Every character of a slug lies in `[a-z0-9_-]`. */
  lemma {:induction false} CreateSlugIsSlug(title: string)
    ensures IsSlug(CreateSlug(title))
  {
    StripNonWordIsSlug(ReplaceSpaces(ToLowerCase(title)));
  }

  lemma StripNonWordKeepsSlug(s: string)
    requires IsSlug(s)
    ensures StripNonWord(s) == s
  {
    if s != [] {
      StripNonWordKeepsSlug(s[1..]);
    }
  }

  /** A string that is already a slug is left unchanged. */
  lemma {:induction false} CreateSlugFixesSlugs(s: string)
    requires IsSlug(s)
    ensures CreateSlug(s) == s
  {
    assert ReplaceSpaces(ToLowerCase(s)) == s;
    StripNonWordKeepsSlug(s);
  }

  /** Applying `createSlug` twice equals applying it once. */
  lemma {:induction false} CreateSlugIdempotent(title: string)
    ensures CreateSlug(CreateSlug(title)) == CreateSlug(title)
  {
    CreateSlugIsSlug(title);
    CreateSlugFixesSlugs(CreateSlug(title));
  }

  /** The first scenario of the API: "How to train your dragon" gives "how-to-train-your-dragon". */
  lemma DragonSlug()
    ensures CreateSlug("How to train your dragon") == "how-to-train-your-dragon"
  {
    assert IsSlug("how-to-train-your-dragon");
    assert ToLowerCase("How to train your dragon") == "how to train your dragon";
    assert ReplaceSpaces("how to train your dragon") == "how-to-train-your-dragon";
    StripNonWordKeepsSlug("how-to-train-your-dragon");
  }

  // Decimal rendering of the retry counter, as in the template literal `${i}`.

  function Digit(d: nat): char
    requires d < 10
  {
    ('0' as int + d) as char
  }

  function NatToString(n: nat): (r: string)
    ensures |r| >= 1
    ensures forall i :: 0 <= i < |r| ==> '0' <= r[i] <= '9'
  {
    if n < 10 then [Digit(n)] else NatToString(n / 10) + [Digit(n % 10)]
  }

  /** Reads a decimal string back; the partner of `NatToString`. */
  function ParseDecimal(s: string): nat
    requires forall i :: 0 <= i < |s| ==> '0' <= s[i] <= '9'
  {
    if s == [] then 0
    else ParseDecimal(s[..|s| - 1]) * 10 + (s[|s| - 1] as int - '0' as int)
  }

  /** Rendering a counter in decimal and parsing it back yields the counter. */
  lemma {:induction false} ParseNatToString(n: nat)
    ensures ParseDecimal(NatToString(n)) == n
  {
    if n >= 10 {
      var s := NatToString(n);
      assert s[..|s| - 1] == NatToString(n / 10);
      ParseNatToString(n / 10);
    }
  }

  lemma NatToStringInjective(m: nat, n: nat)
    requires NatToString(m) == NatToString(n)
    ensures m == n
  {
    ParseNatToString(m);
    ParseNatToString(n);
  }

  /** The `k`-th slug `generateSlug` tries: `createSlug(title)` first, then `createSlug(title + " " + k)`. */
  function Candidate(title: string, k: nat): string {
    if k == 0 then CreateSlug(title) else CreateSlug(title + " " + NatToString(k))
  }

  /** A retry candidate is the first candidate followed by `-` and the counter. */
  lemma {:induction false} CandidateWithSuffix(title: string, k: nat)
    requires k >= 1
    ensures Candidate(title, k) == CreateSlug(title) + "-" + NatToString(k)
  {
    CreateSlugAppend(title + " ", NatToString(k));
    CreateSlugAppend(title, " ");
    CreateSlugOfChar(' ');
    assert IsSlug(NatToString(k));
    CreateSlugFixesSlugs(NatToString(k));
  }

  /** Different counters give different candidates, so the retry loop never tries a slug twice. */
  lemma {:induction false} CandidateInjective(title: string, j: nat, k: nat)
    requires j != k
    ensures Candidate(title, j) != Candidate(title, k)
  {
    var base := CreateSlug(title);
    if j >= 1 {
      CandidateWithSuffix(title, j);
    }
    if k >= 1 {
      CandidateWithSuffix(title, k);
    }
    if j >= 1 && k >= 1 && Candidate(title, j) == Candidate(title, k) {
      var cj, ck := Candidate(title, j), Candidate(title, k);
      assert cj[|base| + 1..] == NatToString(j);
      assert ck[|base| + 1..] == NatToString(k);
      NatToStringInjective(j, k);
    }
  }

  /** The candidates with a counter below `n`. */
  function Tried(title: string, n: nat): set<string> {
    set k | 0 <= k < n :: Candidate(title, k)
  }

  /** Trying one more candidate that is taken shrinks the set of taken slugs not yet tried. */
  lemma {:induction false} TriedGrows(title: string, n: nat, taken: set<string>)
    requires Candidate(title, n) in taken
    ensures Tried(title, n + 1) == Tried(title, n) + {Candidate(title, n)}
    ensures |taken - Tried(title, n + 1)| < |taken - Tried(title, n)|
  {
    var c := Candidate(title, n);
    assert Tried(title, n + 1) == Tried(title, n) + {c};
    if c in Tried(title, n) {
      var k :| 0 <= k < n && Candidate(title, k) == c;
      CandidateInjective(title, k, n);
    }
    assert taken - Tried(title, n) == (taken - Tried(title, n + 1)) + {c};
  }
}
