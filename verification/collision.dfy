/** The publish loop of `write`: attempts 0, 1, 2, ... are tried in order and
    the first place found not to exist is the destination. What exists is the
    finite set of places observed when the loop runs. Because a slug's places
    are pairwise distinct, at most `|existing|` of them can be taken, so a free
    one is always found: the loop the source leaves unbounded ends within
    `|existing| + 1` attempts. */
module Collision {
  import opened Naming

  /** Every attempt below `n` was found taken. */
  ghost predicate TakenBelow(slug: string, existing: set<Place>, n: nat)
    requires ValidSlug(slug)
  {
    forall j: nat :: j < n ==> Destination(slug, j) in existing
  }

  /** The values `f` takes on `0 .. n-1`. */
  function Image(f: nat -> Place, n: nat): set<Place> {
    set j: nat | j < n :: f(j)
  }

  /** A function that never repeats a value takes `n` values on `n` arguments. */
  lemma {:induction false} InjectiveImageCardinality(f: nat -> Place, n: nat)
    requires forall i: nat, j: nat :: i < n && j < n && f(i) == f(j) ==> i == j
    ensures |Image(f, n)| == n
  {
    if n == 0 {
      assert Image(f, 0) == {};
    } else {
      var below := Image(f, n - 1);
      assert Image(f, n) == below + {f(n - 1)};
      assert f(n - 1) !in below;
      InjectiveImageCardinality(f, n - 1);
    }
  }

  /** A subset is no larger than its superset. */
  lemma {:induction false} SubsetCardinality(a: set<Place>, b: set<Place>)
    requires a <= b
    ensures |a| <= |b|
    decreases |a|
  {
    if a != {} {
      var x :| x in a;
      SubsetCardinality(a - {x}, b - {x});
    }
  }

  /** Pigeonhole: `n` taken attempts need `n` distinct names in the garden. */
  lemma TakenBelowBound(slug: string, existing: set<Place>, n: nat)
    requires ValidSlug(slug) && TakenBelow(slug, existing, n)
    ensures n <= |existing|
  {
    var f := (j: nat) => Destination(slug, j);
    forall i: nat, j: nat | i < n && j < n && f(i) == f(j)
      ensures i == j
    {
      DestinationInjective(slug, i, j);
    }
    InjectiveImageCardinality(f, n);
    assert Image(f, n) <= existing;
    SubsetCardinality(Image(f, n), existing);
  }

  /** The search from attempt `a` on, all earlier attempts being taken. */
  function SearchFrom(slug: string, existing: set<Place>, a: nat): (n: nat)
    requires ValidSlug(slug) && TakenBelow(slug, existing, a)
    ensures a <= n <= |existing|
    ensures Destination(slug, n) !in existing
    ensures TakenBelow(slug, existing, n)
    decreases |existing| - a
  {
    TakenBelowBound(slug, existing, a);
    if Destination(slug, a) in existing then
      TakenBelowBound(slug, existing, a + 1);
      SearchFrom(slug, existing, a + 1)
    else a
  }

  /** The attempt the loop stops at: the first whose candidate is free. */
  function FirstFree(slug: string, existing: set<Place>): (n: nat)
    requires ValidSlug(slug)
    ensures n <= |existing|
    ensures Destination(slug, n) !in existing
    ensures forall j: nat :: j < n ==> Destination(slug, j) in existing
  {
    SearchFrom(slug, existing, 0)
  }

  /** Only one attempt is both free and preceded by taken attempts. */
  lemma FirstFreeUnique(slug: string, existing: set<Place>, n: nat)
    requires ValidSlug(slug)
    requires Destination(slug, n) !in existing && TakenBelow(slug, existing, n)
    ensures n == FirstFree(slug, existing)
  {
  }

  /** The loop of `write` itself, probing candidates until one is free. */
  method ChooseDestination(slug: string, existing: set<Place>) returns (attempt: nat, dest: Place)
    requires ValidSlug(slug)
    ensures dest == Destination(slug, attempt) && dest !in existing
    ensures forall j: nat :: j < attempt ==> Destination(slug, j) in existing
    ensures attempt <= |existing|
    ensures attempt == FirstFree(slug, existing)
  {
    attempt := 0;
    dest := Destination(slug, 0);
    while dest in existing
      invariant dest == Destination(slug, attempt)
      invariant TakenBelow(slug, existing, attempt)
      invariant attempt <= |existing|
      decreases |existing| - attempt
    {
      TakenBelowBound(slug, existing, attempt + 1);
      attempt := attempt + 1;
      dest := Destination(slug, attempt);
    }
    FirstFreeUnique(slug, existing, attempt);
  }

  /** Collision escalation: with `slug.md` and `slug-01.md` to `slug-05.md`
      taken and `slug-06.md` free, the note goes to `slug-06.md`. */
  lemma SixthAttemptExample(slug: string, existing: set<Place>)
    requires ValidSlug(slug)
    requires forall j: nat :: j < 6 ==> Destination(slug, j) in existing
    requires Destination(slug, 6) !in existing
    ensures FirstFree(slug, existing) == 6
    ensures Destination(slug, FirstFree(slug, existing)) == InGarden(slug + "-06.md")
  {
    FirstFreeUnique(slug, existing, 6);
    Pad2Examples();
  }

  /** Publishing twice with one slug never reuses a name: the second publish
      lands on a strictly later attempt. */
  lemma RepublishEscalates(slug: string, existing: set<Place>)
    requires ValidSlug(slug)
    ensures FirstFree(slug, existing + {Destination(slug, FirstFree(slug, existing))})
            > FirstFree(slug, existing)
  {
    var f := FirstFree(slug, existing);
    var after := existing + {Destination(slug, f)};
    forall j: nat | j < f + 1
      ensures Destination(slug, j) in after
    {
      if j < f {
        assert Destination(slug, j) in existing;
      }
    }
    FreeLiesBeyondTaken(slug, after, f + 1, FirstFree(slug, after));
  }

  /** A free place lies beyond every run of taken attempts: the stepping stone
      that keeps `RepublishEscalates` within its resource budget. */
  lemma FreeLiesBeyondTaken(slug: string, existing: set<Place>, n: nat, g: nat)
    requires ValidSlug(slug) && TakenBelow(slug, existing, n)
    requires Destination(slug, g) !in existing
    ensures n <= g
  {
  }
}
