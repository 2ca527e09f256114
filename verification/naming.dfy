/** Candidate file names for a slug: `slug.md` on the first attempt and
    `slug-NN.md` after it, where NN is the attempt number printed with
    `{:02}` (zero-padded to at least two digits). The `.md` ending is put on
    with `PathBuf::set_extension`, which replaces whatever follows the last
    dot of the file name. */
module Naming {
  import opened Wrappers

  predicate IsDigit(c: char) {
    '0' <= c <= '9'
  }

  predicate AllDigits(s: string) {
    forall k :: 0 <= k < |s| ==> IsDigit(s[k])
  }

  function DigitChar(d: nat): (c: char)
    requires d < 10
    ensures IsDigit(c)
  {
    (48 + d) as char
  }

  function DigitValue(c: char): (d: nat)
    requires IsDigit(c)
    ensures d < 10
  {
    c as int - 48
  }

  /** The decimal numeral of `n`, without leading zeros. */
  function Decimal(n: nat): (r: string)
    ensures |r| > 0 && AllDigits(r)
    ensures |r| == 1 <==> n < 10
    ensures |r| <= 2 <==> n < 100
    ensures n > 0 ==> r[0] != '0'
    decreases n
  {
    if n < 10 then [DigitChar(n)] else Decimal(n / 10) + [DigitChar(n % 10)]
  }

  /** The number a string of digits denotes, leading zeros allowed. */
  function ParseDecimal(s: string): nat
    requires AllDigits(s)
  {
    if |s| == 0 then 0 else ParseDecimal(s[..|s| - 1]) * 10 + DigitValue(s[|s| - 1])
  }

  /** Reading back a printed number gives the number. */
  lemma {:induction false} ParseDecimalOfDecimal(n: nat)
    ensures ParseDecimal(Decimal(n)) == n
    decreases n
  {
    if n >= 10 {
      var r := Decimal(n);
      assert r[..|r| - 1] == Decimal(n / 10);
      ParseDecimalOfDecimal(n / 10);
    }
  }

  /** A leading zero does not change the number denoted. */
  lemma {:induction false} ParseDecimalLeadingZero(s: string)
    requires AllDigits(s)
    ensures AllDigits("0" + s) && ParseDecimal("0" + s) == ParseDecimal(s)
    decreases |s|
  {
    if |s| > 0 {
      var t := "0" + s;
      assert t[..|t| - 1] == "0" + s[..|s| - 1];
      ParseDecimalLeadingZero(s[..|s| - 1]);
    }
  }

  /** `format!("{:02}", n)`: the numeral padded with zeros to at least two
      digits; wider numbers are printed in full. */
  function Pad2(n: nat): (r: string)
    ensures |r| >= 2 && AllDigits(r)
    ensures ParseDecimal(r) == n
    ensures |r| == 2 <==> n < 100
    ensures n >= 10 ==> r[0] != '0'
  {
    ParseDecimalOfDecimal(n);
    if n < 10 then
      ParseDecimalLeadingZero(Decimal(n));
      "0" + Decimal(n)
    else Decimal(n)
  }

  /** Distinct attempt numbers print differently. */
  lemma Pad2Injective(a: nat, b: nat)
    ensures Pad2(a) == Pad2(b) <==> a == b
  {
  }

  /** The numerals used by the collision example and past 99. */
  lemma Pad2Examples()
    ensures Pad2(1) == "01" && Pad2(6) == "06" && Pad2(100) == "100"
  {
    assert Decimal(10) == Decimal(1) + [DigitChar(0)];
    assert Decimal(100) == Decimal(10) + [DigitChar(0)];
  }

  /** Position of the last '.' in `name`. */
  function LastDot(name: string): (r: Option<nat>)
    ensures r.Some? ==> r.value < |name| && name[r.value] == '.'
    ensures r.Some? ==> forall j :: r.value < j < |name| ==> name[j] != '.'
    ensures r.None? ==> '.' !in name
  {
    if |name| == 0 then None
    else if name[|name| - 1] == '.' then Some(|name| - 1)
    else LastDot(name[..|name| - 1])
  }

  /** `Path::file_stem` of a one-component file name: everything before the
      last dot, except that ".." and names whose only dot leads have no
      extension. */
  function FileStem(name: string): (r: string)
    ensures r <= name
    ensures '.' !in name ==> r == name
  {
    if name == ".." then name
    else match LastDot(name)
      case None => name
      case Some(i) => if i == 0 then name else name[..i]
  }

  /** A name `PathBuf::set_extension` can act on once joined to the garden
      directory: one non-empty component that is not "." or "..". */
  predicate FileName(name: string) {
    |name| > 0 && '/' !in name && name != "." && name != ".."
  }

  /** `PathBuf::set_extension(ext)` on a file name: the stem, then "." and
      `ext` unless `ext` is empty. */
  function SetExtension(name: string, ext: string): (r: string)
    requires FileName(name)
    ensures '.' !in name && ext != "" ==> r == name + "." + ext
    ensures '.' !in name && ext == "" ==> r == name
  {
    var stem := FileStem(name);
    if ext == "" then stem else stem + "." + ext
  }

  /** What the slugging library produces: lower-case letters, digits and
      dashes, so never a dot or a path separator. The slug is empty when the
      title has no letter or digit at all. */
  predicate ValidSlug(slug: string) {
    '.' !in slug && '/' !in slug
  }

  /** The path component joined to the garden directory on attempt `attempt`,
      before its extension is set. */
  function Stem(slug: string, attempt: nat): (r: string)
    ensures slug <= r
    ensures r == "" <==> slug == "" && attempt == 0
    ensures ValidSlug(slug) ==> '.' !in r && '/' !in r
  {
    if attempt == 0 then slug
    else
      var p := Pad2(attempt);
      var r := slug + "-" + p;
      assert ValidSlug(slug) ==> '.' !in r && '/' !in r by {
        assert forall k :: 0 <= k < |p| ==> IsDigit(p[k]);
        assert forall k :: |slug| < k < |r| ==> r[k] == p[k - |slug| - 1];
      }
      r
  }

  /** The file name tried in the garden on attempt `attempt`; the empty slug's
      first attempt has no file name of its own (see `Destination`). */
  function Candidate(slug: string, attempt: nat): (r: string)
    requires ValidSlug(slug) && (slug != "" || attempt > 0)
    ensures attempt == 0 ==> r == slug + ".md"
    ensures attempt > 0 ==> r == slug + "-" + Pad2(attempt) + ".md"
  {
    SetExtension(Stem(slug, attempt), "md")
  }

  /** Where an attempt points. `garden.join(stem)` names a file in the garden
      unless the stem is empty: then the joined path is the garden directory
      itself, and `set_extension` acts on its last component, so the probe and
      the rename go to the garden directory's own path with extension "md", a
      file beside the garden rather than in it. */
  datatype Place = InGarden(name: string) | BesideGarden

  /** The place tried on attempt `attempt`. */
  function Destination(slug: string, attempt: nat): (p: Place)
    requires ValidSlug(slug)
    ensures p == BesideGarden <==> slug == "" && attempt == 0
    ensures p.InGarden? && attempt == 0 ==> p.name == slug + ".md"
    ensures p.InGarden? && attempt > 0 ==> p.name == slug + "-" + Pad2(attempt) + ".md"
  {
    var stem := Stem(slug, attempt);
    if stem == "" then BesideGarden else InGarden(SetExtension(stem, "md"))
  }

  /** For a fixed slug, different attempts never propose the same name. */
  lemma CandidateInjective(slug: string, a: nat, b: nat)
    requires ValidSlug(slug) && (slug != "" || a > 0) && (slug != "" || b > 0)
    ensures Candidate(slug, a) == Candidate(slug, b) <==> a == b
  {
    if a > 0 && b > 0 {
      SameSuffixedName(slug, Pad2(a), Pad2(b));
      Pad2Injective(a, b);
    }
  }

  /** For a fixed slug, different attempts never point at the same place, the
      empty slug's first attempt beside the garden included. */
  lemma DestinationInjective(slug: string, a: nat, b: nat)
    requires ValidSlug(slug)
    ensures Destination(slug, a) == Destination(slug, b) <==> a == b
  {
    if Destination(slug, a).InGarden? && Destination(slug, b).InGarden? {
      CandidateInjective(slug, a, b);
    }
  }

  /** Two suffixed names of one slug agree only when their suffixes do. */
  lemma SameSuffixedName(slug: string, p: string, q: string)
    ensures slug + "-" + p + ".md" == slug + "-" + q + ".md" ==> p == q
  {
    var x, y := slug + "-" + p + ".md", slug + "-" + q + ".md";
    assert x[|slug| + 1..|x| - 3] == p;
    assert y[|slug| + 1..|y| - 3] == q;
  }

  /** The sixth attempt and the hundredth. */
  lemma CandidateExamples(slug: string)
    requires ValidSlug(slug)
    ensures Candidate(slug, 6) == slug + "-06.md"
    ensures Candidate(slug, 100) == slug + "-100.md"
  {
    Pad2Examples();
  }

  /** Why slugs must be free of dots: `set_extension` would cut a dotted stem at
      its last dot, so every suffixed attempt would name the same file. */
  lemma DottedStemsCollapse()
    ensures SetExtension(Stem("v1.2", 1), "md") == "v1.md"
    ensures SetExtension(Stem("v1.2", 2), "md") == "v1.md"
  {
    Pad2Examples();
    assert Pad2(2) == "02";
    var s1, s2 := Stem("v1.2", 1), Stem("v1.2", 2);
    assert s1 == "v1.2-01" && s2 == "v1.2-02";
    assert LastDot(s1) == Some(2) && LastDot(s2) == Some(2);
  }
}
