/** Workspace slugs, `backend/app/services/workspace_service.py`: `_slugify` and
    the probing loop of `create_workspace`. */
module Slugs {
  import opened Sets
  import opened Numbers

  // ------------------------------------------------------------------- slugify

  /** What the Unicode tables say of a character: its lower-case form, which may
      be several characters, and whether `strip` treats it as white space. */
  datatype Tables = Tables(lower: char -> string, space: char -> bool)

  predicate Alnum(c: char) {
    'a' <= c <= 'z' || '0' <= c <= '9'
  }

  /** The tables leave slug characters alone. */
  ghost predicate Sound(t: Tables) {
    forall c :: Alnum(c) || c == '-' ==> t.lower(c) == [c] && !t.space(c)
  }

  function Lower(t: Tables, s: string): string {
    if s == [] then [] else t.lower(s[0]) + Lower(t, s[1..])
  }

  function StripLeft(s: string, drop: char -> bool): string {
    if s != [] && drop(s[0]) then StripLeft(s[1..], drop) else s
  }

  function StripRight(s: string, drop: char -> bool): string {
    if s != [] && drop(s[|s| - 1]) then StripRight(s[..|s| - 1], drop) else s
  }

  function Strip(s: string, drop: char -> bool): string {
    StripRight(StripLeft(s, drop), drop)
  }

  /** `re.sub(r"[^a-z0-9]+", "-", s)`: each maximal run of other characters
      becomes one hyphen. `inRun` says the previous character was in a run. */
  function Hyphenate(s: string, inRun: bool): string {
    if s == [] then []
    else if Alnum(s[0]) then [s[0]] + Hyphenate(s[1..], false)
    else (if inRun then [] else ['-']) + Hyphenate(s[1..], true)
  }

  function Slugify(t: Tables, name: string): string {
    Strip(Hyphenate(Strip(Lower(t, name), t.space), false), c => c == '-')
  }

  predicate SingleHyphens(s: string) {
    && (forall i :: 0 <= i < |s| ==> Alnum(s[i]) || s[i] == '-')
    && (forall i :: 0 <= i < |s| - 1 ==> !(s[i] == '-' && s[i + 1] == '-'))
  }

  /** Lower-case letters and digits in words separated by single hyphens. */
  predicate IsSlug(s: string) {
    SingleHyphens(s) && (s != [] ==> s[0] != '-' && s[|s| - 1] != '-')
  }

  lemma {:induction false} HyphenateIsSingle(s: string, inRun: bool)
    ensures SingleHyphens(Hyphenate(s, inRun))
    ensures inRun && Hyphenate(s, inRun) != [] ==> Hyphenate(s, inRun)[0] != '-'
  {
    if s != [] {
      HyphenateIsSingle(s[1..], !Alnum(s[0]));
    }
  }

  lemma {:induction false} StripLeftHyphens(s: string)
    requires SingleHyphens(s)
    ensures SingleHyphens(StripLeft(s, c => c == '-'))
    ensures var r := StripLeft(s, c => c == '-'); r != [] ==> r[0] != '-'
  {
    if s != [] && s[0] == '-' {
      StripLeftHyphens(s[1..]);
    }
  }

  lemma {:induction false} StripRightHyphens(s: string)
    requires SingleHyphens(s) && (s != [] ==> s[0] != '-')
    ensures IsSlug(StripRight(s, c => c == '-'))
  {
    if s != [] && s[|s| - 1] == '-' {
      StripRightHyphens(s[..|s| - 1]);
    }
  }

  /** Every slug is well formed: no leading, trailing or doubled hyphen, whatever
      the name and whatever the Unicode tables. */
  lemma SlugifyIsSlug(t: Tables, name: string)
    ensures IsSlug(Slugify(t, name))
  {
    var s := Hyphenate(Strip(Lower(t, name), t.space), false);
    HyphenateIsSingle(Strip(Lower(t, name), t.space), false);
    StripLeftHyphens(s);
    StripRightHyphens(StripLeft(s, c => c == '-'));
  }

  lemma {:induction false} LowerOfSlug(t: Tables, s: string)
    requires Sound(t) && forall i :: 0 <= i < |s| ==> Alnum(s[i]) || s[i] == '-'
    ensures Lower(t, s) == s
  {
    if s != [] {
      LowerOfSlug(t, s[1..]);
      assert s == [s[0]] + s[1..];
    }
  }

  lemma {:induction false} HyphenateOfSlug(s: string)
    requires SingleHyphens(s)
    ensures Hyphenate(s, false) == s
    ensures s != [] && s[0] != '-' ==> Hyphenate(s, true) == s
  {
    if s != [] {
      assert s == [s[0]] + s[1..];
      HyphenateOfSlug(s[1..]);
      if s[0] == '-' && s[1..] == [] {
        assert Hyphenate(s[1..], true) == [];
      }
    }
  }

  /** A slug is a fixed point, so making a slug of a slug changes nothing. */
  lemma SlugifyIsIdempotent(t: Tables, name: string)
    requires Sound(t)
    ensures Slugify(t, Slugify(t, name)) == Slugify(t, name)
  {
    var s := Slugify(t, name);
    SlugifyIsSlug(t, name);
    LowerOfSlug(t, s);
    assert Strip(s, t.space) == s;
    HyphenateOfSlug(s);
  }

  // ---------------------------------------------------- the words of the name

  /** The maximal runs of slug letters and digits of `s`, when `current` has been read
      of the first. */
  function Words(s: string, current: string): seq<string> {
    var ended := if current == [] then [] else [current];
    if s == [] then ended
    else if Alnum(s[0]) then Words(s[1..], current + [s[0]])
    else ended + Words(s[1..], [])
  }

  function Join(words: seq<string>): string {
    if words == [] then [] else if |words| == 1 then words[0] else words[0] + "-" + Join(words[1..])
  }

  lemma {:induction false} WordsOfHyphenated(s: string, inRun: bool, current: string)
    requires inRun ==> current == []
    ensures Words(Hyphenate(s, inRun), current) == Words(s, current)
  {
    if s != [] {
      if Alnum(s[0]) {
        WordsOfHyphenated(s[1..], false, current + [s[0]]);
        assert ([s[0]] + Hyphenate(s[1..], false))[1..] == Hyphenate(s[1..], false);
      } else {
        WordsOfHyphenated(s[1..], true, []);
        assert (['-'] + Hyphenate(s[1..], true))[1..] == Hyphenate(s[1..], true);
        assert [] + Hyphenate(s[1..], true) == Hyphenate(s[1..], true);
      }
    }
  }

  lemma {:induction false} WordsOfStrippedLeft(s: string, drop: char -> bool)
    requires forall c :: drop(c) ==> !Alnum(c)
    ensures Words(StripLeft(s, drop), []) == Words(s, [])
  {
    if s != [] && drop(s[0]) {
      WordsOfStrippedLeft(s[1..], drop);
    }
  }

  lemma {:induction false} WordsOfLonger(s: string, c: char, current: string)
    requires !Alnum(c)
    ensures Words(s + [c], current) == Words(s, current)
  {
    if s == [] {
      assert [] + [c] == [c] && [c][1..] == [];
    } else {
      assert (s + [c])[0] == s[0] && (s + [c])[1..] == s[1..] + [c];
      WordsOfLonger(s[1..], c, if Alnum(s[0]) then current + [s[0]] else []);
    }
  }

  lemma {:induction false} WordsOfStrippedRight(s: string, drop: char -> bool)
    requires forall c :: drop(c) ==> !Alnum(c)
    ensures Words(StripRight(s, drop), []) == Words(s, [])
  {
    if s != [] && drop(s[|s| - 1]) {
      WordsOfStrippedRight(s[..|s| - 1], drop);
      WordsOfLonger(s[..|s| - 1], s[|s| - 1], []);
      assert s == s[..|s| - 1] + [s[|s| - 1]];
    }
  }

  lemma WordsOfStripped(s: string, drop: char -> bool)
    requires forall c :: drop(c) ==> !Alnum(c)
    ensures Words(Strip(s, drop), []) == Words(s, [])
  {
    WordsOfStrippedLeft(s, drop);
    WordsOfStrippedRight(StripLeft(s, drop), drop);
  }

  /** A slug is its own words, joined. */
  lemma {:induction false} SlugIsItsWords(s: string, current: string)
    requires SingleHyphens(s) && (s != [] ==> s[|s| - 1] != '-' && (current == [] ==> s[0] != '-'))
    ensures Join(Words(s, current)) == current + s
    ensures s != [] || current != [] ==> Words(s, current) != []
  {
    if s == [] {
      assert current + s == current;
    } else if Alnum(s[0]) {
      SlugIsItsWords(s[1..], current + [s[0]]);
      assert (current + [s[0]]) + s[1..] == current + s;
    } else {
      var rest := s[1..];
      assert s[0] == '-' && rest != [] && rest[0] == s[1];
      SlugIsItsWords(rest, []);
      var words := Words(rest, []);
      assert ([current] + words)[1..] == words;
      assert current + "-" + ([] + rest) == current + s;
    }
  }

  /** What a slug is of its name: the words of the lower-cased name, joined by single
      hyphens. */
  lemma SlugifyJoinsTheWords(t: Tables, name: string)
    requires Sound(t)
    ensures Slugify(t, name) == Join(Words(Lower(t, name), []))
  {
    var stripped := Strip(Lower(t, name), t.space);
    var hyphenated := Hyphenate(stripped, false);
    SlugifyIsSlug(t, name);
    SlugIsItsWords(Slugify(t, name), []);
    assert [] + Slugify(t, name) == Slugify(t, name);
    WordsOfStripped(hyphenated, c => c == '-');
    WordsOfHyphenated(stripped, false, []);
    WordsOfStripped(Lower(t, name), t.space);
  }

  /** Where every character has one lower-case form, each is replaced by its own. */
  lemma {:induction false} LowerIsByCharacter(t: Tables, s: string)
    requires forall c :: |t.lower(c)| == 1
    ensures |Lower(t, s)| == |s| && forall i :: 0 <= i < |s| ==> Lower(t, s)[i] == t.lower(s[i])[0]
  {
    if s != [] {
      LowerIsByCharacter(t, s[1..]);
      assert forall i :: 1 <= i < |s| ==> s[i] == s[1..][i - 1] && Lower(t, s)[i] == Lower(t, s[1..])[i - 1];
    }
  }

  // ------------------------------------------------------------------- probing

  /** `str(n)`. */
  function Decimal(n: nat): (s: string)
    ensures s != []
  {
    if n < 10 then [Digit(n)] else Decimal(n / 10) + [Digit(n % 10)]
  }

  /** The digits denote the number, and there is no leading zero. */
  lemma {:induction false} DecimalDenotes(n: nat)
    ensures ValueOf(Decimal(n)) == n && (n > 0 ==> Decimal(n)[0] != '0')
  {
    if n < 10 {
      assert [Digit(n)][..0] == [];
    } else {
      DecimalDenotes(n / 10);
      assert (Decimal(n / 10) + [Digit(n % 10)])[..|Decimal(n / 10)|] == Decimal(n / 10);
    }
  }

  lemma {:induction false} DecimalInjective(m: nat, n: nat)
    requires Decimal(m) == Decimal(n)
    ensures m == n
  {
    var s := Decimal(m);
    assert s[|s| - 1] == Digit(m % 10) == Digit(n % 10);
    assert m >= 10 ==> |s| >= 2;
    assert n >= 10 ==> |s| >= 2;
    if m >= 10 && n >= 10 {
      assert s[..|s| - 1] == Decimal(m / 10) == Decimal(n / 10);
      DecimalInjective(m / 10, n / 10);
    }
  }

  /** The slugs tried, in order: `base`, `base-1`, `base-2`, ... */
  function Candidate(base: string, n: nat): string {
    if n == 0 then base else base + "-" + Decimal(n)
  }

  lemma CandidateInjective(base: string, m: nat, n: nat)
    requires Candidate(base, m) == Candidate(base, n)
    ensures m == n
  {
    if m > 0 && n > 0 {
      assert Candidate(base, m)[|base| + 1..] == Decimal(m);
      assert Candidate(base, n)[|base| + 1..] == Decimal(n);
      DecimalInjective(m, n);
    }
  }

  function Tried(base: string, n: nat): set<string> {
    set i: nat | i < n :: Candidate(base, i)
  }

  lemma {:induction false} TriedAreDistinct(base: string, n: nat)
    ensures |Tried(base, n)| == n
  {
    if n == 0 {
      assert Tried(base, 0) == {};
    } else {
      TriedAreDistinct(base, n - 1);
      forall i: nat | i < n - 1 && Candidate(base, i) == Candidate(base, n - 1) ensures false {
        CandidateInjective(base, i, n - 1);
      }
      assert Tried(base, n) == Tried(base, n - 1) + {Candidate(base, n - 1)};
    }
  }

  /** The slugs in use, and how one of them is looked up. */
  class Workspaces {
    var slugs: set<string>

    constructor ()
      ensures slugs == {}
    {
      slugs := {};
    }

    /** The `while True` loop of `create_workspace`. It ends because each turn
        rejects a different slug in use; it stops at the first candidate that is
        free, after at most as many turns as there are slugs. */
    method Create(t: Tables, name: string) returns (slug: string, suffix: nat)
      modifies this
      ensures slug == Candidate(Slugify(t, name), suffix) && suffix <= |old(slugs)|
      ensures slug !in old(slugs) && slugs == old(slugs) + {slug}
      ensures forall i: nat :: i < suffix ==> Candidate(Slugify(t, name), i) in old(slugs)
      ensures suffix == FirstFree(old(slugs), Slugify(t, name), 0)
    {
      var base := Slugify(t, name);
      slug := base;
      suffix := 0;
      while true
        invariant slug == Candidate(base, suffix)
        invariant slugs == old(slugs)
        invariant Tried(base, suffix) <= slugs && suffix <= |slugs|
        decreases |slugs| - suffix
      {
        if slug !in slugs {
          break;
        }
        TriedAreDistinct(base, suffix + 1);
        assert Tried(base, suffix + 1) == Tried(base, suffix) + {slug};
        SubsetSize(Tried(base, suffix + 1), slugs);
        suffix := suffix + 1;
        slug := base + "-" + Decimal(suffix);
      }
      slugs := slugs + {slug};
    }
  }

  // ---------------------------------------------------------------------- runs

  /** The first free candidate. */
  function FirstFree(taken: set<string>, base: string, from: nat): (n: nat)
    requires from <= |taken| && forall i: nat :: i < from ==> Candidate(base, i) in taken
    ensures from <= n <= |taken| && Candidate(base, n) !in taken
    ensures forall i: nat :: i < n ==> Candidate(base, i) in taken
    decreases |taken| - from
  {
    if Candidate(base, from) !in taken then from
    else
      (TriedAreDistinct(base, from + 1);
       assert Tried(base, from + 1) <= taken;
       SubsetSize(Tried(base, from + 1), taken);
       FirstFree(taken, base, from + 1))
  }

  /** The slugs given to a run of creations, in order, when some are in use. */
  function Issued(t: Tables, taken: set<string>, names: seq<string>): seq<string> {
    if names == [] then []
    else
      var before := Issued(t, taken, names[..|names| - 1]);
      before + [NextSlug(taken + (set s | s in before), Slugify(t, names[|names| - 1]))]
  }

  function NextSlug(used: set<string>, base: string): (slug: string)
    ensures slug !in used
  {
    Candidate(base, FirstFree(used, base, 0))
  }

  predicate DistinctAndNew(slugs: seq<string>, taken: set<string>) {
    (forall i, j :: 0 <= i < j < |slugs| ==> slugs[i] != slugs[j]) && forall s :: s in slugs ==> s !in taken
  }

  lemma OneMoreDistinct(slugs: seq<string>, taken: set<string>, slug: string)
    requires DistinctAndNew(slugs, taken) && slug !in taken + (set s | s in slugs)
    ensures DistinctAndNew(slugs + [slug], taken)
  {
    forall i | 0 <= i < |slugs| ensures slugs[i] != slug {
      assert slugs[i] in slugs;
    }
  }

  /** Over every run of creations, with whatever names, no slug is issued twice, and
      none that was in use. */
  lemma {:induction false} IssuedSlugsAreDistinct(t: Tables, taken: set<string>, names: seq<string>)
    ensures |Issued(t, taken, names)| == |names| && DistinctAndNew(Issued(t, taken, names), taken)
  {
    if names != [] {
      var before := Issued(t, taken, names[..|names| - 1]);
      IssuedSlugsAreDistinct(t, taken, names[..|names| - 1]);
      OneMoreDistinct(before, taken, NextSlug(taken + (set s | s in before), Slugify(t, names[|names| - 1])));
    }
  }

  /** A slug issued for a name is well formed exactly when the name has a letter or
      digit to build on, or nobody took the empty slug before. */
  lemma IssuedIsSlugIff(taken: set<string>, t: Tables, name: string)
    ensures var base := Slugify(t, name);
      IsSlug(Candidate(base, FirstFree(taken, base, 0))) <==> base != "" || "" !in taken
  {
    var base := Slugify(t, name);
    var n := FirstFree(taken, base, 0);
    SlugifyIsSlug(t, name);
    if n > 0 {
      DecimalIsAlnum(n);
      var s := Candidate(base, n);
      if base == "" {
        assert s[0] == '-';
        assert Candidate(base, 0) in taken;
      } else {
        assert s == base + "-" + Decimal(n);
        assert s[|s| - 1] == Decimal(n)[|Decimal(n)| - 1];
        forall i | 0 <= i < |s| - 1 ensures !(s[i] == '-' && s[i + 1] == '-') {
        }
        assert s[0] == base[0];
      }
    }
  }

  /** The second workspace whose name leaves nothing is given "-1". */
  lemma EmptyNameInput(t: Tables)
    ensures Slugify(t, "") == "" && FirstFree({""}, "", 0) == 1
    ensures Candidate("", 1) == "-1" && !IsSlug("-1")
  {
    assert Lower(t, "") == "" && Strip("", t.space) == "";
    assert Decimal(1) == "1" && Candidate("", 1) == "-1";
    assert "-1"[0] == '-';
    assert Candidate("", 0) == "" && "-1" !in {""};
  }

  lemma {:induction false} DecimalIsAlnum(n: nat)
    ensures forall i :: 0 <= i < |Decimal(n)| ==> Alnum(Decimal(n)[i])
  {
    if n >= 10 {
      DecimalIsAlnum(n / 10);
    }
  }

  // ------------------------------------------------ creations that interleave

  /** A creation awaits between its probes and before its insert, so it may be looking
      for a slug, have found one free, have inserted it, or have lost it to another
      insert and failed on the unique constraint. */
  datatype Creation =
    | Probing(base: string, suffix: nat)
    | Found(base: string, suffix: nat)
    | Created(base: string, suffix: nat)
    | Refused(base: string, suffix: nat)

  datatype Service = Service(slugs: set<string>, creations: map<int, Creation>)

  /** Registration inserts a slug without probing for a free one. */
  datatype Step =
    | Begin(creation: int, base: string)
    | Probe(creation: int)
    | Insert(creation: int)
    | Register(slug: string)

  predicate Enabled(s: Service, step: Step) {
    match step
    case Begin(id, _) => id !in s.creations
    case Probe(id) => id in s.creations && s.creations[id].Probing?
    case Insert(id) => id in s.creations && s.creations[id].Found?
    case Register(_) => true
  }

  function Apply(s: Service, step: Step): Service
    requires Enabled(s, step)
  {
    match step
    case Begin(id, base) => s.(creations := s.creations[id := Probing(base, 0)])
    case Probe(id) =>
      var c := s.creations[id];
      s.(creations := s.creations[id :=
        if Candidate(c.base, c.suffix) in s.slugs then Probing(c.base, c.suffix + 1) else Found(c.base, c.suffix)])
    case Insert(id) =>
      var c := s.creations[id];
      var slug := Candidate(c.base, c.suffix);
      if slug in s.slugs then s.(creations := s.creations[id := Refused(c.base, c.suffix)])
      else Service(s.slugs + {slug}, s.creations[id := Created(c.base, c.suffix)])
    case Register(slug) => s.(slugs := s.slugs + {slug})
  }

  predicate Runs(s: Service, steps: seq<Step>)
    decreases |steps|, 0
  {
    steps == [] || (Runs(s, steps[..|steps| - 1]) && Enabled(After(s, steps[..|steps| - 1]), steps[|steps| - 1]))
  }

  function After(s: Service, steps: seq<Step>): Service
    requires Runs(s, steps)
    decreases |steps|, 1
  {
    if steps == [] then s else Apply(After(s, steps[..|steps| - 1]), steps[|steps| - 1])
  }

  /** Slugs are never given up; a creation has passed over candidates in use only; a
      created workspace's slug is in the table, was not there at the start, and is
      no other's. */
  ghost predicate Sequential(taken: set<string>, s: Service) {
    && taken <= s.slugs
    && (forall id :: id in s.creations ==> PassedOver(s, s.creations[id]))
    && (forall id :: id in s.creations && s.creations[id].Created? ==>
          var slug := SlugOf(s.creations[id]); slug in s.slugs && slug !in taken)
    && (forall a, b ::
          a in s.creations && b in s.creations && s.creations[a].Created? && s.creations[b].Created? && a != b
          ==> SlugOf(s.creations[a]) != SlugOf(s.creations[b]))
  }

  function SlugOf(c: Creation): string {
    Candidate(c.base, c.suffix)
  }

  ghost predicate PassedOver(s: Service, c: Creation) {
    forall i: nat :: i < c.suffix ==> Candidate(c.base, i) in s.slugs
  }

  lemma StepKeepsSequential(taken: set<string>, s: Service, step: Step)
    requires Sequential(taken, s) && Enabled(s, step)
    ensures Sequential(taken, Apply(s, step))
  {
    var s' := Apply(s, step);
    forall id | id in s'.creations ensures PassedOver(s', s'.creations[id]) {
      if id in s.creations {
        assert PassedOver(s, s.creations[id]);
      }
    }
  }

  /** Whatever creations and registrations interleave, from whatever slugs in use, no
      two created workspaces share a slug and none has one that was in use. */
  lemma {:induction false} InterleavedSlugsAreDistinct(taken: set<string>, steps: seq<Step>)
    requires Runs(Service(taken, map[]), steps)
    ensures Sequential(taken, After(Service(taken, map[]), steps))
    decreases |steps|
  {
    if steps != [] {
      var front := steps[..|steps| - 1];
      InterleavedSlugsAreDistinct(taken, front);
      StepKeepsSequential(taken, After(Service(taken, map[]), front), steps[|steps| - 1]);
    }
  }

  /** What an insert comes to: it is refused if and only if somebody took the slug
      after it was found free, and otherwise takes the first candidate that is free
      at that moment, as if the whole search had happened then. */
  lemma InsertTakesTheFirstFreeOrFails(taken: set<string>, steps: seq<Step>, id: int)
    requires Runs(Service(taken, map[]), steps)
    requires var s := After(Service(taken, map[]), steps); id in s.creations && s.creations[id].Found?
    ensures var s := After(Service(taken, map[]), steps);
      var c, c' := s.creations[id], Apply(s, Insert(id)).creations[id];
      && (c'.Refused? <==> SlugOf(c) in s.slugs)
      && (c'.Created? <==> c.suffix == FirstFree(s.slugs, c.base, 0))
      && (c'.Refused? || c'.Created?)
  {
    InterleavedSlugsAreDistinct(taken, steps);
    var s := After(Service(taken, map[]), steps);
    var c := s.creations[id];
    assert PassedOver(s, c);
    var n := FirstFree(s.slugs, c.base, 0);
    if SlugOf(c) !in s.slugs {
      assert n >= c.suffix;
      assert n <= c.suffix;
    }
  }

  /** Probes of one creation, so many or until it has found a slug. */
  function Probed(s: Service, id: int, probes: nat): Service
    decreases probes
  {
    if probes == 0 || id !in s.creations || !s.creations[id].Probing? then s
    else Probed(Apply(s, Probe(id)), id, probes - 1)
  }

  /** A search that nothing comes between finds the first free candidate, and the insert
      that follows creates the workspace with it. */
  lemma {:induction false} AloneItFindsTheFirstFree(s: Service, id: int, probes: nat)
    requires id in s.creations && s.creations[id].Probing? && PassedOver(s, s.creations[id])
    requires s.creations[id].suffix + probes > FirstFree(s.slugs, s.creations[id].base, 0)
    ensures var base, found := s.creations[id].base, Probed(s, id, probes);
      var n := FirstFree(s.slugs, base, 0);
      && found.slugs == s.slugs && id in found.creations && found.creations[id] == Found(base, n)
      && Apply(found, Insert(id)).creations[id] == Created(base, n)
      && Apply(found, Insert(id)).slugs == s.slugs + {Candidate(base, n)}
    decreases probes
  {
    var c, n := s.creations[id], FirstFree(s.slugs, s.creations[id].base, 0);
    assert c.suffix <= n;
    var next := Apply(s, Probe(id));
    if Candidate(c.base, c.suffix) in s.slugs {
      assert next.creations[id] == Probing(c.base, c.suffix + 1) && next.slugs == s.slugs;
      assert c.suffix != n;
      AloneItFindsTheFirstFree(next, id, probes - 1);
    } else {
      assert c.suffix == n && next.creations[id] == Found(c.base, n);
      assert Probed(next, id, probes - 1) == next;
    }
  }

  /** A registration takes its slug, whoever is searching. */
  lemma RegistrationTakesItsSlug(taken: set<string>, steps: seq<Step>, slug: string)
    requires Runs(Service(taken, map[]), steps)
    ensures var s := After(Service(taken, map[]), steps);
      && Apply(s, Register(slug)).slugs == s.slugs + {slug}
      && forall id :: id in s.creations && s.creations[id].Found? && SlugOf(s.creations[id]) == slug ==>
           Apply(Apply(s, Register(slug)), Insert(id)).creations[id].Refused?
  {
  }

  /** And a search is never longer than the table: it has seen a different slug in use
      at every turn, so it ends unless others insert without end. */
  lemma SearchesAreBounded(taken: set<string>, steps: seq<Step>, id: int)
    requires Runs(Service(taken, map[]), steps) && id in After(Service(taken, map[]), steps).creations
    ensures var s := After(Service(taken, map[]), steps); s.creations[id].suffix <= |s.slugs|
  {
    InterleavedSlugsAreDistinct(taken, steps);
    var s := After(Service(taken, map[]), steps);
    var c := s.creations[id];
    assert PassedOver(s, c);
    TriedAreDistinct(c.base, c.suffix);
    SubsetSize(Tried(c.base, c.suffix), s.slugs);
  }
}
