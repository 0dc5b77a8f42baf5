// Slugs: the normal form a name is brought into, and the search for one that is not taken yet.

module Slugs {

  predicate IsWordChar(c: char) {
    'a' <= c <= 'z' || '0' <= c <= '9'
  }

  predicate IsWord(s: string) {
    s != "" && forall i :: 0 <= i < |s| ==> IsWordChar(s[i])
  }

  /** The length of the word `s` begins with. */
  function Lead(s: string): (n: nat)
    ensures n <= |s|
    ensures forall i :: 0 <= i < n ==> IsWordChar(s[i])
    ensures n < |s| ==> !IsWordChar(s[n])
  {
    if s != "" && IsWordChar(s[0]) then 1 + Lead(s[1..]) else 0
  }

  /** `s` from its first word on. */
  function SkipGap(s: string): (r: string)
    ensures |r| <= |s|
    ensures r == "" || IsWordChar(r[0])
  {
    if s == "" || IsWordChar(s[0]) then s else SkipGap(s[1..])
  }

  /** `replace(/[^a-z0-9]+/g, '-')`. */
  function Dashed(s: string): string
    decreases |s|
  {
    if s == "" then ""
    else if IsWordChar(s[0]) then [s[0]] + Dashed(s[1..])
    else "-" + Dashed(SkipGap(s[1..]))
  }

  function TrimStart(s: string): string {
    if s != "" && s[0] == '-' then TrimStart(s[1..]) else s
  }

  function TrimEnd(s: string): string {
    if s != "" && s[|s| - 1] == '-' then TrimEnd(s[..|s| - 1]) else s
  }

  /** `replace(/^-+|-+$/g, '')` after the hyphens are in place. */
  function Normalized(s: string): string {
    TrimEnd(TrimStart(Dashed(s)))
  }

  /** What the normal form is for: the words of `s`, in order. */
  function Words(s: string): (ws: seq<string>)
    ensures forall i :: 0 <= i < |ws| ==> IsWord(ws[i])
    decreases |s|
  {
    if s == "" then []
    else if IsWordChar(s[0]) then [s[..Lead(s)]] + Words(s[Lead(s)..])
    else Words(s[1..])
  }

  function Joined(ws: seq<string>): string {
    if ws == [] then ""
    else if |ws| == 1 then ws[0]
    else ws[0] + "-" + Joined(ws[1..])
  }

  lemma {:induction false} DashedLead(s: string)
    ensures Dashed(s) == s[..Lead(s)] + Dashed(s[Lead(s)..])
    decreases |s|
  {
    if s != "" && IsWordChar(s[0]) {
      DashedLead(s[1..]);
      assert s[1..][Lead(s[1..])..] == s[Lead(s)..];
      assert s[..Lead(s)] == [s[0]] + s[1..][..Lead(s[1..])];
    } else {
      assert s[..0] + Dashed(s[0..]) == Dashed(s);
    }
  }

  lemma {:induction false} WordsSkipGap(s: string)
    ensures Words(SkipGap(s)) == Words(s)
  {
    if s != "" && !IsWordChar(s[0]) {
      WordsSkipGap(s[1..]);
    }
  }

  lemma {:induction false} TrimEndAfter(a: string, b: string)
    requires TrimEnd(b) != ""
    ensures TrimEnd(a + b) == a + TrimEnd(b)
    decreases |b|
  {
    if b != "" {
      if b[|b| - 1] == '-' {
        assert (a + b)[..|a + b| - 1] == a + b[..|b| - 1];
        TrimEndAfter(a, b[..|b| - 1]);
      } else {
        assert (a + b)[|a + b| - 1] == b[|b| - 1];
      }
    }
  }

  lemma TrimEndOfWord(w: string)
    requires IsWord(w)
    ensures TrimEnd(w) == w && TrimEnd(w + "-") == w
  {
    assert (w + "-")[..|w|] == w;
  }

  /** A word, a gap and more words: how the three steps unfold over the first word. */
  lemma FirstWord(s: string, rest: string, next: string)
    requires s != "" && IsWordChar(s[0])
    requires rest == s[Lead(s)..] && next == if rest == "" then "" else SkipGap(rest[1..])
    ensures IsWord(s[..Lead(s)]) && |next| < |s|
    ensures Words(s) == [s[..Lead(s)]] + Words(next)
    ensures Dashed(s) == s[..Lead(s)] + if rest == "" then "" else "-" + Dashed(next)
  {
    DashedLead(s);
    if rest != "" {
      WordsSkipGap(rest[1..]);
    }
  }

  lemma TrimOneMoreWord(w: string, more: string)
    requires IsWord(w) && TrimEnd(more) != ""
    ensures TrimEnd(w + ("-" + more)) == w + "-" + TrimEnd(more)
  {
    TrimEndAfter(w + "-", more);
    assert w + ("-" + more) == (w + "-") + more;
  }

  lemma JoinOneMoreWord(w: string, ws: seq<string>)
    ensures Joined([w] + ws) == if ws == [] then w else w + "-" + Joined(ws)
  {
    assert ([w] + ws)[1..] == ws;
  }

  /** From a word on, trimming the end of the dashed form leaves the words joined by single hyphens. */
  lemma {:induction false} DashedIsJoined(s: string)
    requires s == "" || IsWordChar(s[0])
    ensures TrimEnd(Dashed(s)) == Joined(Words(s))
    ensures s != "" ==> Words(s) != [] && Joined(Words(s)) != ""
    decreases |s|
  {
    hide Joined, TrimEnd, SkipGap, Lead;
    if s == "" {
      assert TrimEnd("") == Joined([]) == "" by { EmptyForms(); }
    } else {
      var w, rest := s[..Lead(s)], s[Lead(s)..];
      var next := if rest == "" then "" else SkipGap(rest[1..]);
      FirstWord(s, rest, next);
      TrimEndOfWord(w);
      JoinOneMoreWord(w, Words(next));
      if next == "" {
        assert Words(next) == [] && Dashed(s) == if rest == "" then w else w + "-";
      } else {
        DashedIsJoined(next);
        TrimOneMoreWord(w, Dashed(next));
      }
    }
  }

  lemma EmptyForms()
    ensures TrimEnd("") == Joined([]) == ""
  {}

  /** The two replacements together compute the words of the name joined by single hyphens. */
  lemma NormalizedIsJoined(s: string)
    ensures Normalized(s) == Joined(Words(s))
  {
    WordsSkipGap(s);
    DashedIsJoined(SkipGap(s));
    if s != "" && !IsWordChar(s[0]) {
      assert TrimStart(Dashed(s)) == TrimStart(Dashed(SkipGap(s))) by {
        assert Dashed(s)[1..] == Dashed(SkipGap(s[1..]));
      }
    }
    assert TrimStart(Dashed(SkipGap(s))) == Dashed(SkipGap(s));
  }

  /** Only letters, digits and hyphens, no hyphen at either end and no two in a row. */
  predicate IsSlug(s: string) {
    && (forall i :: 0 <= i < |s| ==> IsWordChar(s[i]) || s[i] == '-')
    && (s != "" ==> IsWordChar(s[0]) && IsWordChar(s[|s| - 1]))
    && (forall i :: 0 <= i < |s| - 1 ==> IsWordChar(s[i]) || IsWordChar(s[i + 1]))
  }

  lemma {:induction false} JoinedIsSlug(ws: seq<string>)
    requires forall i :: 0 <= i < |ws| ==> IsWord(ws[i])
    ensures IsSlug(Joined(ws)) && (ws != [] ==> Joined(ws) != "")
    decreases |ws|
  {
    if |ws| > 1 {
      var rest := Joined(ws[1..]);
      JoinedIsSlug(ws[1..]);
      SlugAfterWord(ws[0], rest);
    } else if |ws| == 1 {
      assert IsWord(ws[0]);
    }
  }

  lemma SlugAfterWord(w: string, rest: string)
    requires IsWord(w) && IsSlug(rest) && rest != ""
    ensures IsSlug(w + "-" + rest)
  {
    var s := w + "-" + rest;
    forall i | 0 <= i < |s| ensures IsWordChar(s[i]) || s[i] == '-' {
      assert i > |w| ==> s[i] == rest[i - |w| - 1];
    }
    forall i | 0 <= i < |s| - 1 ensures IsWordChar(s[i]) || IsWordChar(s[i + 1]) {
      assert i > |w| ==> s[i] == rest[i - |w| - 1];
      assert i >= |w| ==> s[i + 1] == rest[i - |w|];
    }
  }

  /** A slug that is more than one word is a word, a hyphen and a shorter slug. */
  lemma SlugSplits(s: string, n: nat)
    requires IsSlug(s) && n < |s| && !IsWordChar(s[n])
    ensures 0 < n < |s| - 1 && IsSlug(s[n + 1..])
    ensures s == s[..n] + "-" + s[n + 1..]
  {
    assert s[n] == '-' && n != 0 && n != |s| - 1;
    SlugSuffix(s, n + 1);
  }

  lemma SlugSuffix(s: string, k: nat)
    requires IsSlug(s) && k < |s| && IsWordChar(s[k])
    ensures IsSlug(s[k..])
  {
    var rest := s[k..];
    assert forall i :: 0 <= i < |rest| ==> rest[i] == s[k + i];
    assert rest[|rest| - 1] == s[|s| - 1];
    forall i | 0 <= i < |rest| - 1 ensures IsWordChar(rest[i]) || IsWordChar(rest[i + 1]) {
      assert rest[i] == s[k + i] && rest[i + 1] == s[k + i + 1];
    }
  }

  lemma WordsAfterHyphen(s: string)
    requires s != "" && s[0] == '-'
    ensures Words(s) == Words(s[1..])
  {}

  lemma {:induction false} SlugIsItsOwnNormalForm(s: string)
    requires IsSlug(s)
    ensures Joined(Words(s)) == s
    decreases |s|
  {
    if s != "" {
      var n := Lead(s);
      if n == |s| {
        assert s[..n] == s && s[n..] == "";
      } else {
        SlugSplits(s, n);
        var rest := s[n + 1..];
        WordsAfterHyphen(s[n..]);
        assert s[n..][1..] == rest;
        assert Words(s) == [s[..n]] + Words(rest);
        SlugIsItsOwnNormalForm(rest);
      }
    }
  }

  /** The normal form is always a slug, a string is its own normal form exactly when it is a slug, and
      normalising twice changes nothing. */
  lemma NormalizedIsSlug(s: string)
    ensures IsSlug(Normalized(s))
    ensures Normalized(s) == s <==> IsSlug(s)
    ensures Normalized(Normalized(s)) == Normalized(s)
  {
    NormalizedIsJoined(s);
    JoinedIsSlug(Words(s));
    NormalizedIsJoined(Normalized(s));
    SlugIsItsOwnNormalForm(Normalized(s));
    if IsSlug(s) {
      SlugIsItsOwnNormalForm(s);
    }
  }

  // ---- From a name ----

  /** U+0300 to U+036F, what decomposition leaves of accents. */
  predicate IsMark(c: char) {
    '\U{0300}' <= c <= '\U{036F}'
  }

  /** The replacement that drops the marks. */
  function WithoutMarks(s: string): (r: string)
    ensures forall i :: 0 <= i < |r| ==> !IsMark(r[i])
    ensures (forall i :: 0 <= i < |s| ==> !IsMark(s[i])) ==> r == s
  {
    if s == "" then ""
    else
      var rest := WithoutMarks(s[1..]);
      assert forall i :: 0 <= i < |s[1..]| ==> s[1..][i] == s[i + 1];
      if IsMark(s[0]) then rest else [s[0]] + rest
  }

  /** The slug base of a name. `lower` and `decompose` are the library's lower-casing and canonical
      decomposition. */
  function BaseOf(name: string, lower: string -> string, decompose: string -> string): string {
    Normalized(WithoutMarks(decompose(lower(name))))
  }

  /** Both leave strings of lower-case letters, digits and hyphens alone. */
  ghost predicate KeepsSlugs(f: string -> string) {
    forall s :: IsSlug(s) ==> f(s) == s
  }

  /** The base is always a slug: the words of the folded name, without its marks, joined by single hyphens. It is
      the name itself exactly when the name is a slug already, so taking the base twice changes nothing. */
  lemma BaseIsSlug(name: string, lower: string -> string, decompose: string -> string)
    requires KeepsSlugs(lower) && KeepsSlugs(decompose)
    ensures IsSlug(BaseOf(name, lower, decompose))
    ensures BaseOf(name, lower, decompose) == Joined(Words(WithoutMarks(decompose(lower(name)))))
    ensures BaseOf(name, lower, decompose) == name <==> IsSlug(name)
    ensures BaseOf(BaseOf(name, lower, decompose), lower, decompose) == BaseOf(name, lower, decompose)
  {
    var base := BaseOf(name, lower, decompose);
    NormalizedIsSlug(WithoutMarks(decompose(lower(name))));
    NormalizedIsJoined(WithoutMarks(decompose(lower(name))));
    SlugIsItsOwnBase(base, lower, decompose);
    if IsSlug(name) {
      SlugIsItsOwnBase(name, lower, decompose);
    }
  }

  lemma SlugIsItsOwnBase(s: string, lower: string -> string, decompose: string -> string)
    requires KeepsSlugs(lower) && KeepsSlugs(decompose) && IsSlug(s)
    ensures BaseOf(s, lower, decompose) == s
  {
    assert decompose(lower(s)) == s;
    assert forall i :: 0 <= i < |s| ==> !IsMark(s[i]);
    assert WithoutMarks(s) == s;
    NormalizedIsSlug(s);
  }

  // ---- Suffixes ----

  function Digit(d: nat): (c: char)
    requires d < 10
    ensures '0' <= c <= '9'
  {
    ('0' as int + d) as char
  }

  function Decimal(n: nat): (r: string)
    ensures IsWord(r)
  {
    if n < 10 then [Digit(n)] else Decimal(n / 10) + [Digit(n % 10)]
  }

  /** Reading a numeral in base ten. */
  function Read(s: string): int {
    if s == "" then 0 else 10 * Read(s[..|s| - 1]) + (s[|s| - 1] as int - '0' as int)
  }

  /** The suffix is the number's decimal numeral: digits only, no leading zero, and reading it gives the number
      back. */
  lemma {:induction false} DecimalReadsBack(n: nat)
    ensures Read(Decimal(n)) == n
    ensures forall i :: 0 <= i < |Decimal(n)| ==> Decimal(n)[i] in "0123456789"
    ensures n > 0 ==> Decimal(n)[0] != '0'
  {
    if n >= 10 {
      DecimalReadsBack(n / 10);
      assert Decimal(n)[..|Decimal(n)| - 1] == Decimal(n / 10);
      DigitIsListed(n % 10);
    } else {
      DigitIsListed(n);
      assert Decimal(n)[..0] == "";
    }
  }

  lemma DigitIsListed(d: nat)
    requires d < 10
    ensures Digit(d) == "0123456789"[d]
  {}

  /** The characters a slug keeps, by their codes: the lower-case letters and the digits of ASCII. */
  lemma WordCharsByCode(c: char)
    ensures IsWordChar(c) <==> 97 <= c as int <= 122 || 48 <= c as int <= 57
  {}

  lemma DecimalIsInjective(m: nat, n: nat)
    requires Decimal(m) == Decimal(n)
    ensures m == n
  {
    DecimalReadsBack(m);
    DecimalReadsBack(n);
  }

  /** The k-th slug tried: the base itself, then base-2, base-3, ... */
  function Candidate(base: string, k: nat): string {
    if k <= 1 then base else base + "-" + Decimal(k)
  }

  lemma CandidatesDiffer(base: string, j: nat, k: nat)
    requires 1 <= j < k
    ensures Candidate(base, j) != Candidate(base, k)
  {
    if j > 1 && Candidate(base, j) == Candidate(base, k) {
      assert Decimal(j) == Candidate(base, j)[|base| + 1..] == Candidate(base, k)[|base| + 1..] == Decimal(k);
      DecimalIsInjective(j, k);
    }
  }

  /** Everything tried before the k-th is taken. */
  ghost predicate AllTaken(base: string, taken: set<string>, k: nat) {
    forall j :: 1 <= j < k ==> Candidate(base, j) in taken
  }

  /** Pigeonhole: distinct taken candidates cannot outnumber the taken slugs. */
  lemma {:induction false} TakenBoundsTheSearch(base: string, taken: set<string>, k: nat)
    requires k >= 1 && AllTaken(base, taken, k)
    ensures k <= |taken| + 1
    decreases k
  {
    if k > 1 {
      var last := Candidate(base, k - 1);
      assert last in taken;
      forall j | 1 <= j < k - 1 ensures Candidate(base, j) in taken - {last} {
        CandidatesDiffer(base, j, k - 1);
      }
      TakenBoundsTheSearch(base, taken - {last}, k - 1);
    }
  }

  /** The k-th candidate is free and everything tried before it is taken. */
  ghost predicate IsFirstFree(base: string, taken: set<string>, k: nat) {
    k >= 1 && AllTaken(base, taken, k) && Candidate(base, k) !in taken
  }

  /** The search has one possible answer. */
  lemma FirstFreeIsUnique(base: string, taken: set<string>, j: nat, k: nat)
    requires IsFirstFree(base, taken, j) && IsFirstFree(base, taken, k)
    ensures j == k
  {
    assert j < k ==> Candidate(base, j) in taken;
    assert k < j ==> Candidate(base, k) in taken;
  }

  /** `generateUniqueSlug`'s loop: it stops after at most |taken| + 1 lookups at the first candidate that is
      not taken, and there is only one such. */
  method FindUniqueSlug(base: string, taken: set<string>) returns (slug: string, suffix: nat)
    ensures slug !in taken && suffix >= 1 && slug == Candidate(base, suffix)
    ensures suffix <= |taken| + 1
    ensures forall k :: IsFirstFree(base, taken, k) <==> k == suffix
    ensures base !in taken <==> slug == base
    ensures base in taken ==>
      && suffix >= 2 && slug == base + "-" + Decimal(suffix)
      && forall k :: 2 <= k < suffix ==> base + "-" + Decimal(k) in taken
  {
    slug := base;
    suffix := 1;
    while slug in taken
      invariant suffix >= 1 && slug == Candidate(base, suffix)
      invariant AllTaken(base, taken, suffix)
      invariant suffix > 1 ==> Candidate(base, 1) in taken
      decreases |taken| + 1 - suffix
    {
      TakenBoundsTheSearch(base, taken, suffix + 1);
      suffix := suffix + 1;
      slug := base + "-" + Decimal(suffix);
    }
    TakenBoundsTheSearch(base, taken, suffix);
    forall k | 2 <= k < suffix ensures base + "-" + Decimal(k) in taken {
      assert Candidate(base, k) in taken;
    }
    forall k | IsFirstFree(base, taken, k) ensures k == suffix {
      FirstFreeIsUnique(base, taken, k, suffix);
    }
  }

  /** The slug found is a slug again, except for a name without any letter or digit once its empty base is
      taken: that one gets "-2", "-3", ... */
  lemma CandidateIsSlugIff(base: string, k: nat)
    requires IsSlug(base) && k >= 1
    ensures IsSlug(Candidate(base, k)) <==> base != "" || k == 1
  {
    if k > 1 {
      var s := Candidate(base, k);
      if base == "" {
        assert s[0] == '-';
      } else {
        var d := Decimal(k);
        forall i | 0 <= i < |s| ensures IsWordChar(s[i]) || s[i] == '-' {
          assert i > |base| ==> s[i] == d[i - |base| - 1];
        }
        forall i | 0 <= i < |s| - 1 ensures IsWordChar(s[i]) || IsWordChar(s[i + 1]) {
          assert i >= |base| ==> s[i + 1] == d[i - |base|];
          assert i == |base| - 1 ==> s[i] == base[|base| - 1];
        }
      }
    }
  }

  // ---- Creating many ----

  /** The slugs of one name created over and over: numbers go up by one each time, starting at the first
      free one, as long as nothing further along was taken before. */
  lemma {:induction false} RepeatedNamesCountUp(base: string, taken: set<string>, first: nat, n: nat)
    requires IsFirstFree(base, taken, first)
    requires forall k :: k >= first ==> Candidate(base, k) !in taken
    ensures IsFirstFree(base, taken + (set k | first <= k < first + n :: Candidate(base, k)), first + n)
    decreases n
  {
    var all := taken + (set k | first <= k < first + n :: Candidate(base, k));
    if Candidate(base, first + n) in all {
      var k :| first <= k < first + n && Candidate(base, k) == Candidate(base, first + n);
      CandidatesDiffer(base, k, first + n);
    }
  }
}
