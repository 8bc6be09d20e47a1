/** The matching engine of the recommender service: text normalisation,
    per-facet coverage, scalar equality, the personality rule chain, the
    weighted aggregate score and the explanation sentence. Scores are exact
    reals; the service's final rounding to four decimals is not modelled. */
module Recommender {
  import opened Wrappers
  import opened Unicode
  import opened Text
  import opened Seqs

  /** The five personality dimensions of a reader (openness,
      conscientiousness, extraversion, agreeableness, neuroticism). */
  datatype Personality = Personality(o: int, c: int, e: int, a: int, n: int)

  /** A reader's stated literary preferences. */
  datatype Preferences = Preferences(
    genres: seq<string>,
    themes: seq<string>,
    emotionTags: seq<string>,
    tone: Option<string>,
    style: Option<string>,
    ageRange: Option<string>,
    language: Option<string>)

  /** The request body of a recommendation: preferences plus personality. */
  datatype Profile = Profile(preferences: Preferences, personality: Personality)

  /** A catalog book as the engine reads it: a missing list field reads as
      the empty list and a missing scalar field as `None`. */
  datatype Book = Book(
    title: Option<string>,
    author: Option<string>,
    genres: seq<string>,
    themes: seq<string>,
    emotionTags: seq<string>,
    tone: Option<string>,
    style: Option<string>,
    ageRange: Option<string>,
    personalityMatch: seq<string>)

  // ---------------------------------------------------------------------
  // Normalisation
  // ---------------------------------------------------------------------

  /** Python truthiness of an optional string: present and non-empty. */
  predicate IsTruthy(text: Option<string>) {
    text.Some? && text.value != ""
  }

  /** `normalize`: falsy input gives ""; otherwise the text is lower-cased,
      NFKD-decomposed, stripped of non-ASCII characters and then of
      surrounding whitespace. */
  function Normalize(text: Option<string>): (r: string)
    ensures !IsTruthy(text) ==> r == ""
    ensures IsStripped(r)
  {
    if !IsTruthy(text) then "" else Strip(AsciiOnly(Nfkd(LowerStr(text.value))))
  }

  /** A normal form is plain ASCII without capitals: accents are gone
      because NFKD splits them off as non-ASCII combining marks. */
  lemma NormalizeFacts(text: Option<string>)
    ensures forall i :: 0 <= i < |Normalize(text)| ==>
      IsAscii(Normalize(text)[i]) && !IsAsciiUpper(Normalize(text)[i])
  {
    if IsTruthy(text) {
      var lowered := LowerStr(text.value);
      LowerStrFacts(text.value);
      LowerStrFacts(lowered);
      assert forall i :: 0 <= i < |lowered| ==> Lower(lowered[i]) == lowered[i] by {
        assert forall i :: 0 <= i < |lowered| ==> LowerStr(lowered)[i] == Lower(lowered[i]);
      }
      NfkdOfLoweredHasNoCapital(lowered);
      var ascii := AsciiOnly(Nfkd(lowered));
      AsciiOnlyFacts(Nfkd(lowered));
      StripKeepsChars(ascii);
      assert forall c :: c in ascii ==> IsAscii(c) && !IsAsciiUpper(c);
    }
  }

  /** Non-empty stripped ASCII text. */
  predicate IsAsciiWord(t: string) {
    t != [] && IsStripped(t) && forall i :: 0 <= i < |t| ==> IsAscii(t[i])
  }

  /** Text that is already a normal form: a stripped ASCII word without
      capitals. */
  predicate IsNormalWord(t: string) {
    IsAsciiWord(t) && forall i :: 0 <= i < |t| ==> !IsAsciiUpper(t[i])
  }

  /** Lower-casing an ASCII word gives a normal form. */
  lemma LoweredAsciiWord(t: string)
    requires IsAsciiWord(t)
    ensures IsNormalWord(LowerStr(t))
  {
    LowerStrFacts(t);
  }

  /** The stages before stripping lower-case an ASCII prefix and pass it
      through otherwise unchanged, working on what follows it
      separately. */
  lemma PipelineKeepsPrefix(t: string, u: string)
    requires IsAsciiWord(t)
    ensures AsciiOnly(Nfkd(LowerStr(t + u))) == LowerStr(t) + AsciiOnly(Nfkd(LowerStr(u)))
  {
    var lt := LowerStr(t);
    LoweredAsciiWord(t);
    LowerStrConcat(t, u);
    NfkdConcat(lt, LowerStr(u));
    NfkdOfAscii(lt);
    AsciiOnlyConcat(lt, Nfkd(LowerStr(u)));
    AsciiOnlyFacts(lt);
  }

  /** Non-empty text goes through the whole pipeline. */
  lemma NormalizeUnfold(s: string)
    requires s != ""
    ensures Normalize(Some(s)) == Strip(AsciiOnly(Nfkd(LowerStr(s))))
  {
  }

  /** Text that starts with an ASCII word starts, once normalised, with
      that word lower-cased, whatever follows it. */
  lemma NormalizeKeepsPrefix(t: string, u: string)
    requires IsAsciiWord(t)
    ensures LowerStr(t) <= Normalize(Some(t + u))
  {
    var lt, rest := LowerStr(t), AsciiOnly(Nfkd(LowerStr(u)));
    LoweredAsciiWord(t);
    PipelineKeepsPrefix(t, u);
    StripKeepsWord(lt, rest);
    NormalizeUnfold(t + u);
    assert Normalize(Some(t + u)) == Strip(lt + rest);
  }

  /** A normal form is a fixed point of normalisation. */
  lemma NormalizeFixes(t: string)
    requires IsNormalWord(t)
    ensures Normalize(Some(t)) == t
  {
    LowerStrFacts(t);
    assert LowerStr(t) == t;
    PipelineKeepsPrefix(t, "");
    assert t + "" == t;
    assert AsciiOnly(Nfkd(LowerStr(""))) == "";
    StripIdentity(t);
  }

  /** Normalising twice is normalising once. */
  lemma NormalizeIdempotent(text: Option<string>)
    ensures Normalize(Some(Normalize(text))) == Normalize(text)
  {
    var n := Normalize(text);
    if n != "" {
      NormalizeFacts(text);
      NormalizeFixes(n);
    }
  }

  /** `normalize_list`: the normal forms of the non-empty entries, in
      order. An entry whose normal form is "" still contributes "". */
  function NormalizeList(texts: seq<string>): (r: seq<string>)
    ensures |r| <= |texts|
  {
    Map(Filter(texts, (t: string) => t != ""), (t: string) => Normalize(Some(t)))
  }

  /** The normal forms of the non-empty entries of `texts`. */
  ghost function NormalForms(texts: seq<string>): set<string> {
    set t | t in texts && t != "" :: Normalize(Some(t))
  }

  /** The values of the normalised list are exactly the normal forms of
      the non-empty entries: none is lost and none is invented. */
  lemma NormalizeListValues(texts: seq<string>)
    ensures ToSet(NormalizeList(texts)) == NormalForms(texts)
  {
    var kept := Filter(texts, (t: string) => t != "");
    FilterMembers(texts, (t: string) => t != "");
    MapValues(kept, (t: string) => Normalize(Some(t)));
  }

  // ---------------------------------------------------------------------
  // Set-valued facets: genres, themes, emotion tags
  // ---------------------------------------------------------------------

  /** The book and the profile share a normalised value on this facet
      (Python: the intersection of the two normalised sets is truthy). */
  predicate Shares(bookValues: seq<string>, profileValues: seq<string>) {
    ToSet(NormalizeList(bookValues)) * ToSet(NormalizeList(profileValues)) != {}
  }

  /** Number of distinct normalised values the book and the profile share. */
  function Overlap(bookValues: seq<string>, profileValues: seq<string>): nat {
    |ToSet(NormalizeList(bookValues)) * ToSet(NormalizeList(profileValues))|
  }

  /** Every value the profile states appears in the book, the profile
      states at least one and none twice. */
  predicate FullyCovered(bookValues: seq<string>, profileValues: seq<string>) {
    var stated := NormalizeList(profileValues);
    && stated != []
    && NoDuplicates(stated)
    && ToSet(stated) <= ToSet(NormalizeList(bookValues))
  }

  /** The shared distinct values never outnumber the profile's list. */
  lemma OverlapBound(bookValues: seq<string>, profileValues: seq<string>)
    ensures Overlap(bookValues, profileValues) <= |NormalizeList(profileValues)|
  {
    var stated := NormalizeList(profileValues);
    CardToSet(stated);
    SubsetCard(ToSet(NormalizeList(bookValues)) * ToSet(stated), ToSet(stated));
  }

  /** The coverage score of one facet: the shared distinct values divided
      by the length of the profile's normalised list (at least 1), and 0
      when nothing is shared. */
  function Coverage(bookValues: seq<string>, profileValues: seq<string>): (r: real)
    ensures 0.0 <= r <= 1.0
    ensures r == 0.0 <==> !Shares(bookValues, profileValues)
  {
    var shared := Overlap(bookValues, profileValues);
    if shared > 0 then
      OverlapBound(bookValues, profileValues);
      Ratio(shared, Max1(|NormalizeList(profileValues)|))
    else 0.0
  }

  /** The coverage is 1 exactly when the profile's list is non-empty,
      without repeats, and wholly shared. */
  lemma CoverageFull(bookValues: seq<string>, profileValues: seq<string>)
    ensures Coverage(bookValues, profileValues) == 1.0 <==> FullyCovered(bookValues, profileValues)
  {
    var stated := NormalizeList(profileValues);
    var common := ToSet(NormalizeList(bookValues)) * ToSet(stated);
    CardToSet(stated);
    SubsetCard(common, ToSet(stated));
    if FullyCovered(bookValues, profileValues) {
      assert stated[0] in common;
      assert common == ToSet(stated);
    }
    if Coverage(bookValues, profileValues) == 1.0 {
      assert |common| == |stated|;
      assert common == ToSet(stated);
    }
  }

  /** `m / d` for naturals `m <= d`: in [0, 1], 0 exactly when `m` is and
      1 exactly when `m == d`. */
  function Ratio(m: nat, d: nat): (r: real)
    requires 0 < d && m <= d
    ensures 0.0 <= r <= 1.0
    ensures r == 0.0 <==> m == 0
    ensures r == 1.0 <==> m == d
  {
    Fraction(m, d);
    m as real / d as real
  }

  /** A fraction `m / d` of naturals with `m <= d` lies in [0, 1], is 0
      exactly when `m` is and 1 exactly when `m == d`. */
  lemma Fraction(m: nat, d: nat)
    requires 0 < d && m <= d
    ensures 0.0 <= m as real / d as real <= 1.0
    ensures m as real / d as real == 1.0 <==> m == d
    ensures m as real / d as real == 0.0 <==> m == 0
    ensures (m as real / d as real) * d as real == m as real
  {
    var r := m as real / d as real;
    assert r * d as real == m as real;
  }

  /** Fractions with the same denominator are ordered as their numerators. */
  lemma FractionMonotone(m: nat, n: nat, d: nat)
    requires m <= n && 0 < d
    ensures m as real / d as real <= n as real / d as real
  {
    var x, y := m as real / d as real, n as real / d as real;
    assert x * d as real == m as real;
    assert y * d as real == n as real;
    assert (y - x) * d as real >= 0.0;
  }

  /** `max(n, 1)`. */
  function Max1(n: nat): (m: nat)
    ensures m >= 1 && m >= n
  {
    if n > 1 then n else 1
  }

  /** Appending an entry to a list keeps every normal form it had. */
  lemma NormalizeListGrows(texts: seq<string>, extra: string)
    ensures ToSet(NormalizeList(texts)) <= ToSet(NormalizeList(texts + [extra]))
  {
    NormalizeListValues(texts);
    NormalizeListValues(texts + [extra]);
  }

  /** A list of normal forms is its own normalised list. */
  lemma NormalizeListOfWords(texts: seq<string>)
    requires forall i :: 0 <= i < |texts| ==> IsNormalWord(texts[i])
    ensures NormalizeList(texts) == texts
  {
    FilterAll(texts, (t: string) => t != "");
    forall i | 0 <= i < |texts| ensures Normalize(Some(texts[i])) == texts[i] {
      NormalizeFixes(texts[i]);
    }
    MapIdentity(texts, (t: string) => Normalize(Some(t)));
  }

  /** On lists of normal forms the coverage is the plain fraction of the
      profile's entries that are shared. */
  lemma CoverageOfWords(bookValues: seq<string>, profileValues: seq<string>)
    requires forall i :: 0 <= i < |bookValues| ==> IsNormalWord(bookValues[i])
    requires forall i :: 0 <= i < |profileValues| ==> IsNormalWord(profileValues[i])
    ensures Coverage(bookValues, profileValues)
         == |ToSet(bookValues) * ToSet(profileValues)| as real / Max1(|profileValues|) as real
  {
    NormalizeListOfWords(bookValues);
    NormalizeListOfWords(profileValues);
    CoverageValue(bookValues, profileValues);
  }

  /** The coverage is the shared count over the stated count (at least 1)
      in every case: the guard for "nothing shared" gives the same 0. */
  lemma CoverageValue(bookValues: seq<string>, profileValues: seq<string>)
    ensures Coverage(bookValues, profileValues)
         == Overlap(bookValues, profileValues) as real / Max1(|NormalizeList(profileValues)|) as real
  {
    var m, d := Overlap(bookValues, profileValues), Max1(|NormalizeList(profileValues)|);
    if m == 0 {
      ZeroRatio(d);
    }
  }

  lemma OneHalf()
    ensures 1 as real / 2 as real == 0.5
  {
  }

  lemma ZeroRatio(d: nat)
    requires d > 0
    ensures 0 as real / d as real == 0.0
  {
  }

  /** Adding a value to a book's facet never lowers that facet's coverage. */
  lemma CoverageMonotone(bookValues: seq<string>, extra: string, profileValues: seq<string>)
    ensures Coverage(bookValues + [extra], profileValues) >= Coverage(bookValues, profileValues)
  {
    var grown := bookValues + [extra];
    assert grown[..|grown| - 1] == bookValues;
    NormalizeListGrows(bookValues, extra);
    var stated := ToSet(NormalizeList(profileValues));
    var before := ToSet(NormalizeList(bookValues)) * stated;
    var after := ToSet(NormalizeList(grown)) * stated;
    SubsetCard(before, after);
    var d := Max1(|NormalizeList(profileValues)|);
    FractionMonotone(|before|, |after|, d);
  }

  // ---------------------------------------------------------------------
  // Scalar facets: tone, style, age range
  // ---------------------------------------------------------------------

  /** 1.0 when the two normalised values are equal, else 0.0. */
  function ScalarMatch(bookValue: Option<string>, profileValue: Option<string>): (r: real)
    ensures r == 1.0 || r == 0.0
    ensures r == 1.0 <==> Normalize(bookValue) == Normalize(profileValue)
    ensures !IsTruthy(bookValue) && !IsTruthy(profileValue) ==> r == 1.0
  {
    if Normalize(bookValue) == Normalize(profileValue) then 1.0 else 0.0
  }

  // ---------------------------------------------------------------------
  // Personality affinity
  // ---------------------------------------------------------------------

  datatype Trait = Openness | Conscientiousness | Extraversion | Agreeableness | Neuroticism

  /** One branch of the rule chain: a tag label, the dimension it reads and
      whether it asks for a high or a low value. */
  datatype Rule = Rule(phrase: string, dimension: Trait, high: bool)

  const HighThreshold := 60
  const LowThreshold := 40

  /** The branches of the chain, in the order they are tried. */
  const Rules: seq<Rule> := [
    Rule("Alta apertura", Openness, true),
    Rule("Baja apertura", Openness, false),
    Rule("Alta responsabilidad", Conscientiousness, true),
    Rule("Baja responsabilidad", Conscientiousness, false),
    Rule("Alta extraversión", Extraversion, true),
    Rule("Baja extraversión", Extraversion, false),
    Rule("Alta amabilidad", Agreeableness, true),
    Rule("Baja amabilidad", Agreeableness, false),
    Rule("Alto neuroticismo", Neuroticism, true),
    Rule("Bajo neuroticismo", Neuroticism, false)
  ]

  function TraitValue(p: Personality, t: Trait): int {
    match t
    case Openness => p.o
    case Conscientiousness => p.c
    case Extraversion => p.e
    case Agreeableness => p.a
    case Neuroticism => p.n
  }

  /** The threshold half of a branch's condition: at least 60 for a
      "high" branch, at most 40 for a "low" one. */
  predicate Passes(rule: Rule, p: Personality) {
    if rule.high then TraitValue(p, rule.dimension) >= HighThreshold
    else TraitValue(p, rule.dimension) <= LowThreshold
  }

  /** A branch's condition: its label is a case-sensitive substring of the
      raw tag and the dimension passes its threshold. */
  predicate Fires(rule: Rule, tag: string, p: Personality) {
    Contains(tag, rule.phrase) && Passes(rule, p)
  }

  /** Some branch of the chain fires for this tag. */
  ghost predicate TagMatches(p: Personality, tag: string) {
    exists i :: 0 <= i < |Rules| && Fires(Rules[i], tag, p)
  }

  /** The if/elif chain over `rules` for one tag: 1 when a branch fires
      (the first one adds 1 and ends the chain), 0 when none does. */
  function ChainHit(rules: seq<Rule>, tag: string, p: Personality): (hit: nat)
    ensures hit <= 1
  {
    if rules == [] then 0
    else if Fires(rules[0], tag, p) then 1
    else ChainHit(rules[1..], tag, p)
  }

  /** The chain scores a tag exactly when one of its branches fires. */
  lemma {:induction false} ChainHitFires(rules: seq<Rule>, tag: string, p: Personality)
    ensures ChainHit(rules, tag, p) == 1 <==> exists i :: 0 <= i < |rules| && Fires(rules[i], tag, p)
    decreases |rules|
  {
    if rules != [] && !Fires(rules[0], tag, p) {
      ChainHitFires(rules[1..], tag, p);
      assert forall i :: 1 <= i < |rules| ==> rules[i] == rules[1..][i - 1];
    }
  }

  lemma TagHit(p: Personality, tag: string)
    ensures ChainHit(Rules, tag, p) == 1 <==> TagMatches(p, tag)
  {
    ChainHitFires(Rules, tag, p);
  }

  /** How many tags some branch of the chain fires for. */
  function HitCount(p: Personality, tags: seq<string>): (n: nat)
    ensures n <= |tags|
  {
    if tags == [] then 0
    else HitCount(p, tags[..|tags| - 1]) + ChainHit(Rules, tags[|tags| - 1], p)
  }

  /** Every tag is counted exactly when every tag matches, and none is
      counted exactly when none matches. */
  lemma HitCountExtremes(p: Personality, tags: seq<string>)
    ensures HitCount(p, tags) == |tags| <==> forall i :: 0 <= i < |tags| ==> TagMatches(p, tags[i])
    ensures HitCount(p, tags) == 0 <==> forall i :: 0 <= i < |tags| ==> !TagMatches(p, tags[i])
  {
    HitCountAll(p, tags);
    HitCountNone(p, tags);
  }

  lemma {:induction false} HitCountAll(p: Personality, tags: seq<string>)
    ensures HitCount(p, tags) == |tags| <==> forall i :: 0 <= i < |tags| ==> TagMatches(p, tags[i])
    decreases |tags|
  {
    if tags != [] {
      var init, last := tags[..|tags| - 1], tags[|tags| - 1];
      HitCountAll(p, init);
      TagHit(p, last);
      assert HitCount(p, tags) == HitCount(p, init) + ChainHit(Rules, last, p);
      assert forall i :: 0 <= i < |init| ==> init[i] == tags[i];
      if forall i :: 0 <= i < |tags| ==> TagMatches(p, tags[i]) {
        assert TagMatches(p, last);
      }
    }
  }

  lemma {:induction false} HitCountNone(p: Personality, tags: seq<string>)
    ensures HitCount(p, tags) == 0 <==> forall i :: 0 <= i < |tags| ==> !TagMatches(p, tags[i])
    decreases |tags|
  {
    if tags != [] {
      var init, last := tags[..|tags| - 1], tags[|tags| - 1];
      HitCountNone(p, init);
      TagHit(p, last);
      assert HitCount(p, tags) == HitCount(p, init) + ChainHit(Rules, last, p);
      assert forall i :: 0 <= i < |init| ==> init[i] == tags[i];
      if forall i :: 0 <= i < |tags| ==> !TagMatches(p, tags[i]) {
        assert !TagMatches(p, last);
      }
    }
  }

  /** `match_personality`: 0.0 for no tags, otherwise the fraction of tags
      some branch fires for; unknown tags count in the denominator. */
  function MatchPersonality(p: Personality, tags: seq<string>): (r: real)
    ensures 0.0 <= r <= 1.0
    ensures tags == [] ==> r == 0.0
  {
    if tags == [] then 0.0
    else
      var hits := HitCount(p, tags);
      Ratio(hits, |tags|)
  }

  /** The affinity is 1 exactly when there are tags and all of them match,
      and 0 exactly when none matches. */
  lemma MatchPersonalityExtremes(p: Personality, tags: seq<string>)
    ensures MatchPersonality(p, tags) == 1.0 <==>
      tags != [] && forall i :: 0 <= i < |tags| ==> TagMatches(p, tags[i])
    ensures MatchPersonality(p, tags) == 0.0 <==>
      forall i :: 0 <= i < |tags| ==> !TagMatches(p, tags[i])
  {
    HitCountExtremes(p, tags);
    if tags != [] {
      Fraction(HitCount(p, tags), |tags|);
    }
  }

  /** A tag no branch fires for adds nothing to the count but one to the
      denominator: it dilutes the affinity of the tags before it. */
  lemma UnknownTagDilutes(p: Personality, tags: seq<string>, unknown: string)
    requires tags != []
    requires !TagMatches(p, unknown)
    ensures MatchPersonality(p, tags + [unknown]) * ((|tags| + 1) as real)
         == MatchPersonality(p, tags) * (|tags| as real)
  {
    var grown := tags + [unknown];
    assert grown[..|grown| - 1] == tags;
    var hits := HitCount(p, tags);
    TagHit(p, unknown);
    assert HitCount(p, grown) == hits;
    Fraction(hits, |tags|);
    Fraction(hits, |grown|);
    assert MatchPersonality(p, grown) == hits as real / |grown| as real;
    assert (|tags| + 1) as real == |grown| as real;
  }

  // ---------------------------------------------------------------------
  // Weighted aggregate
  // ---------------------------------------------------------------------

  const ThemeWeight: real := 0.25
  const EmotionWeight: real := 0.25
  const GenreWeight: real := 0.20
  const ToneWeight: real := 0.15
  /** Shared by style and age range, which are averaged. */
  const StyleAgeWeight: real := 0.05
  const PersonalityWeight: real := 0.10

  /** The seven component scores of one book against one profile. */
  datatype Components = Components(
    genre: real, theme: real, emotion: real,
    tone: real, style: real, age: real,
    personality: real)

  function ComponentsOf(p: Profile, b: Book): Components {
    var prefs := p.preferences;
    Components(
      Coverage(b.genres, prefs.genres),
      Coverage(b.themes, prefs.themes),
      Coverage(b.emotionTags, prefs.emotionTags),
      ScalarMatch(b.tone, prefs.tone),
      ScalarMatch(b.style, prefs.style),
      ScalarMatch(b.ageRange, prefs.ageRange),
      MatchPersonality(p.personality, b.personalityMatch))
  }

  predicate NothingMatches(c: Components) {
    c.genre == 0.0 && c.theme == 0.0 && c.emotion == 0.0 && c.tone == 0.0
    && c.style == 0.0 && c.age == 0.0 && c.personality == 0.0
  }

  predicate EverythingMatches(c: Components) {
    c.genre == 1.0 && c.theme == 1.0 && c.emotion == 1.0 && c.tone == 1.0
    && c.style == 1.0 && c.age == 1.0 && c.personality == 1.0
  }

  /** `compute_score`: the weighted sum of the components. The weights sum
      to 1 and every component lies in [0, 1], so the score does too; it is
      0 exactly when no component matched and 1 exactly when all did. */
  function ComputeScore(p: Profile, b: Book): (r: real)
    ensures 0.0 <= r <= 1.0
    ensures r == 0.0 <==> NothingMatches(ComponentsOf(p, b))
    ensures r == 1.0 <==> EverythingMatches(ComponentsOf(p, b))
  {
    var c := ComponentsOf(p, b);
    ThemeWeight * c.theme
    + EmotionWeight * c.emotion
    + GenreWeight * c.genre
    + ToneWeight * c.tone
    + StyleAgeWeight * (c.style + c.age) / 2.0
    + PersonalityWeight * c.personality
  }

  /** `score_book`: the same score with the arguments in the other order. */
  function ScoreBook(b: Book, p: Profile): (r: real)
    ensures r == ComputeScore(p, b)
    ensures 0.0 <= r <= 1.0
  {
    ComputeScore(p, b)
  }

  /** A shared value on any tag facet makes the score strictly positive. */
  lemma SharedTagGivesPositiveScore(p: Profile, b: Book)
    requires || Shares(b.genres, p.preferences.genres)
             || Shares(b.themes, p.preferences.themes)
             || Shares(b.emotionTags, p.preferences.emotionTags)
    ensures ComputeScore(p, b) > 0.0
  {
  }

  /** Two absent scalars both normalise to "" and so count as a match: a
      book without tone, style or age range, against a profile that states
      none of them, gets the whole tone and style/age weight. */
  lemma AbsentScalarsMatch(p: Profile, b: Book)
    requires !IsTruthy(b.tone) && !IsTruthy(b.style) && !IsTruthy(b.ageRange)
    requires !IsTruthy(p.preferences.tone) && !IsTruthy(p.preferences.style)
    requires !IsTruthy(p.preferences.ageRange)
    ensures ComputeScore(p, b) >= ToneWeight + StyleAgeWeight
  {
  }

  // ---------------------------------------------------------------------
  // Explanation
  // ---------------------------------------------------------------------

  /** The facets an explanation can name. */
  datatype Facet = GenresFacet | ThemesFacet | EmotionsFacet | ToneFacet | StyleFacet

  /** Every facet, in the order the explanation names them. */
  const AllFacets := [GenresFacet, ThemesFacet, EmotionsFacet, ToneFacet, StyleFacet]

  lemma FacetListed(f: Facet)
    ensures f in AllFacets
  {
    match f
    case GenresFacet => assert f == AllFacets[0];
    case ThemesFacet => assert f == AllFacets[1];
    case EmotionsFacet => assert f == AllFacets[2];
    case ToneFacet => assert f == AllFacets[3];
    case StyleFacet => assert f == AllFacets[4];
  }

  function Label(f: Facet): string {
    match f
    case GenresFacet => "géneros favoritos"
    case ThemesFacet => "temas importantes"
    case EmotionsFacet => "emociones evocadas"
    case ToneFacet => "tono narrativo"
    case StyleFacet => "estilo literario"
  }

  /** The explanation's own test for a facet: a shared normalised value
      for a tag facet, equal normal forms for tone and style. */
  predicate Named(b: Book, p: Profile, f: Facet) {
    var prefs := p.preferences;
    match f
    case GenresFacet => Shares(b.genres, prefs.genres)
    case ThemesFacet => Shares(b.themes, prefs.themes)
    case EmotionsFacet => Shares(b.emotionTags, prefs.emotionTags)
    case ToneFacet => Normalize(b.tone) == Normalize(prefs.tone)
    case StyleFacet => Normalize(b.style) == Normalize(prefs.style)
  }

  /** The score's verdict on a facet: positive coverage for a tag facet, a
      scalar match of 1.0 for tone and style. */
  predicate ScoreCredits(b: Book, p: Profile, f: Facet) {
    var prefs := p.preferences;
    match f
    case GenresFacet => Coverage(b.genres, prefs.genres) > 0.0
    case ThemesFacet => Coverage(b.themes, prefs.themes) > 0.0
    case EmotionsFacet => Coverage(b.emotionTags, prefs.emotionTags) > 0.0
    case ToneFacet => ScalarMatch(b.tone, prefs.tone) == 1.0
    case StyleFacet => ScalarMatch(b.style, prefs.style) == 1.0
  }

  /** The explanation names a facet exactly when the score credits it:
      the sentence never claims a match the score did not count. */
  lemma NamedIffCredited(b: Book, p: Profile, f: Facet)
    ensures Named(b, p, f) <==> ScoreCredits(b, p, f)
  {
  }

  /** The facets the explanation names: those passing its test, in the
      fixed order genres, themes, emotions, tone, style. Personality and
      age range are never named. */
  function MatchedFacets(b: Book, p: Profile): (fs: seq<Facet>)
    ensures |fs| <= |AllFacets|
  {
    Filter(AllFacets, f => Named(b, p, f))
  }

  /** The named facets are exactly the facets the score credits. */
  lemma MatchedFacetsExact(b: Book, p: Profile)
    ensures forall f :: f in MatchedFacets(b, p) <==> ScoreCredits(b, p, f)
  {
    FilterMembers(AllFacets, f => Named(b, p, f));
    forall f ensures f in MatchedFacets(b, p) <==> ScoreCredits(b, p, f) {
      NamedIffCredited(b, p, f);
      FacetListed(f);
    }
  }

  /** The named facets come each once and in the fixed order. */
  lemma MatchedFacetsOrdered(b: Book, p: Profile)
    ensures IsSubsequence(MatchedFacets(b, p), AllFacets)
    ensures NoDuplicates(MatchedFacets(b, p))
  {
    AllFacetsDistinct();
    FilterOfDistinct(AllFacets, f => Named(b, p, f));
  }

  lemma AllFacetsDistinct()
    ensures NoDuplicates(AllFacets)
  {
  }

  const SelectedPrefix := "Este libro fue seleccionado por coincidir con tus "
  const FallbackSentence := "Este libro fue sugerido por su afinidad general con tu perfil lector."

  function Labels(fs: seq<Facet>): (ls: seq<string>)
    ensures |ls| == |fs|
  {
    if fs == [] then [] else [Label(fs[0])] + Labels(fs[1..])
  }

  /** The sentence for a list of matched facets. */
  function Sentence(fs: seq<Facet>): (r: string)
    ensures r == FallbackSentence <==> fs == []
    ensures fs != [] ==> SelectedPrefix <= r && r[|r| - 1] == '.'
  {
    if fs != [] then
      var r := SelectedPrefix + Join(Labels(fs), ", ") + ".";
      assert r[49] == SelectedPrefix[49] == ' ';
      assert FallbackSentence[49] == 'o';
      r
    else FallbackSentence
  }

  /** `generate_explanation`: the fixed sentence listing the matched
      facets' labels joined by ", ", or the fixed fallback sentence when
      no facet matched. */
  function GenerateExplanation(b: Book, p: Profile): string {
    Sentence(MatchedFacets(b, p))
  }

  /** The explanation falls back exactly when the score credits no facet
      it can name, and otherwise names every credited facet. */
  lemma ExplanationNamesCreditedFacets(b: Book, p: Profile)
    ensures GenerateExplanation(b, p) == FallbackSentence <==>
      forall f :: !ScoreCredits(b, p, f)
    ensures forall f :: ScoreCredits(b, p, f) ==>
      Contains(GenerateExplanation(b, p), Label(f))
  {
    var fs := MatchedFacets(b, p);
    MatchedFacetsExact(b, p);
    if fs != [] {
      assert ScoreCredits(b, p, fs[0]);
    }
    forall f | ScoreCredits(b, p, f)
      ensures Contains(GenerateExplanation(b, p), Label(f))
    {
      var i :| 0 <= i < |fs| && fs[i] == f;
      SentenceNames(fs, i);
    }
  }

  /** The sentence for a non-empty list names each of its facets. */
  lemma SentenceNames(fs: seq<Facet>, i: nat)
    requires i < |fs|
    ensures Contains(Sentence(fs), Label(fs[i]))
  {
    var ls := Labels(fs);
    LabelsAt(fs, i);
    JoinHasEach(ls, ", ", i);
    var k :| OccursAt(Join(ls, ", "), ls[i], k);
    assert Sentence(fs) == SelectedPrefix + Join(ls, ", ") + ".";
    OccursInside(SelectedPrefix, Join(ls, ", "), ".", ls[i], k);
  }

  /** An occurrence inside the middle part is an occurrence in the whole. */
  lemma OccursInside(pre: string, mid: string, post: string, needle: string, k: int)
    requires OccursAt(mid, needle, k)
    ensures Contains(pre + mid + post, needle)
  {
    var whole := pre + mid + post;
    assert whole[|pre| + k..|pre| + k + |needle|] == mid[k..k + |needle|];
    assert OccursAt(whole, needle, |pre| + k);
    ContainsIffOccurs(whole, needle);
  }

  lemma {:induction false} LabelsAt(fs: seq<Facet>, i: nat)
    requires i < |fs|
    ensures Labels(fs)[i] == Label(fs[i])
    decreases i
  {
    if i > 0 {
      LabelsAt(fs[1..], i - 1);
    }
  }

  // ---------------------------------------------------------------------
  // The scenarios of the service's unit tests
  // ---------------------------------------------------------------------

  const MockBook := Book(
    Some("Test Book"), Some("Author A"),
    ["Ciencia Ficción", "Distopía"],
    ["libertad", "control social"],
    ["angustia", "alerta"],
    Some("oscuro"), Some("directo"), Some("16+"),
    ["Alta apertura", "Alta extraversión"])

  const MockProfile := Profile(
    Preferences(
      ["Ciencia Ficción"], ["libertad", "futurismo"], ["alerta", "curiosidad"],
      Some("oscuro"), Some("directo"), Some("16+"), Some("es")),
    Personality(75, 55, 80, 50, 30))

  const UnrelatedProfile := Profile(
    Preferences(
      ["Romántica"], ["amistad"], ["alegría"],
      Some("luminoso"), Some("poético"), Some("infantil"), Some("es")),
    Personality(30, 30, 30, 30, 30))

  /** One of two stated normal forms shared: coverage one half. */
  lemma HalfShared(book: seq<string>, shared: string, unshared: string)
    requires forall i :: 0 <= i < |book| ==> IsNormalWord(book[i])
    requires IsNormalWord(shared) && IsNormalWord(unshared)
    requires ToSet(book) * {shared, unshared} == {shared}
    ensures Coverage(book, [shared, unshared]) == 0.5
  {
    var stated := [shared, unshared];
    ToSetPair(shared, unshared);
    var common := ToSet(book) * ToSet(stated);
    assert common == {shared};
    assert |common| == 1;
    assert Max1(|stated|) == 2;
    CoverageOfWords(book, stated);
    assert Coverage(book, stated) == 1 as real / 2 as real;
    OneHalf();
  }

  /** A profile stating one value the book lists is fully covered. */
  lemma SoleValueCovered(value: string, other: string)
    requires value != ""
    ensures Coverage([value, other], [value]) == 1.0
  {
    var stated := NormalizeList([value]);
    assert [value][..0] == [];
    assert stated == [Normalize(Some(value))];
    NormalizeListValues([value, other]);
    assert FullyCovered([value, other], [value]);
    CoverageFull([value, other], [value]);
  }

  lemma MockThemes()
    ensures Coverage(MockBook.themes, MockProfile.preferences.themes) == 0.5
  {
    var book := MockBook.themes;
    assert IsNormalWord(book[0]) && IsNormalWord(book[1]);
    ToSetPair(book[0], book[1]);
    HalfShared(book, "libertad", "futurismo");
  }

  lemma MockEmotions()
    ensures Coverage(MockBook.emotionTags, MockProfile.preferences.emotionTags) == 0.5
  {
    var book := MockBook.emotionTags;
    assert IsNormalWord(book[0]) && IsNormalWord(book[1]);
    ToSetPair(book[0], book[1]);
    HalfShared(book, "alerta", "curiosidad");
  }

  lemma MockGenres()
    ensures Coverage(MockBook.genres, MockProfile.preferences.genres) == 1.0
  {
    SoleValueCovered("Ciencia Ficción", "Distopía");
  }

  /** A tag that is exactly the label of a branch whose threshold passes
      matches. */
  lemma PhraseMatches(p: Personality, i: nat)
    requires i < |Rules| && Passes(Rules[i], p)
    ensures TagMatches(p, Rules[i].phrase)
  {
    assert Rules[i].phrase <= Rules[i].phrase;
    assert Fires(Rules[i], Rules[i].phrase, p);
  }

  /** A tag lacking some character of every label whose threshold passes
      matches no branch. */
  lemma MissingCharDefeats(p: Personality, tag: string)
    requires forall i :: 0 <= i < |Rules| && Passes(Rules[i], p) ==>
      exists k :: 0 <= k < |Rules[i].phrase| && Rules[i].phrase[k] !in tag
    ensures !TagMatches(p, tag)
  {
    forall i | 0 <= i < |Rules| ensures !Fires(Rules[i], tag, p) {
      if Passes(Rules[i], p) && Contains(tag, Rules[i].phrase) {
        var k :| 0 <= k < |Rules[i].phrase| && Rules[i].phrase[k] !in tag;
        ContainsNeeds(tag, Rules[i].phrase, k);
      }
    }
  }

  /** "Baja"/"Bajo" labels are the low branches and "Alta"/"Alto" the
      high ones. */
  lemma RulePhrases()
    ensures forall i :: 0 <= i < |Rules| ==>
      |Rules[i].phrase| > 4 && (Rules[i].high <==> Rules[i].phrase[0] == 'A')
    ensures forall i :: 0 <= i < |Rules| ==> (!Rules[i].high <==> Rules[i].phrase[0] == 'B')
  {
  }

  /** Two of three tags matching gives an affinity of two thirds. */
  lemma TwoOfThree(p: Personality, x: string, y: string, z: string)
    requires TagMatches(p, x) && TagMatches(p, y) && !TagMatches(p, z)
    ensures MatchPersonality(p, [x, y, z]) == 2.0 / 3.0
  {
    var tags := [x, y, z];
    TagHit(p, x);
    TagHit(p, y);
    TagHit(p, z);
    assert tags[..2] == [x, y] && [x, y][..1] == [x] && [x][..0] == [];
    assert HitCount(p, [x]) == 1;
    assert HitCount(p, [x, y]) == 2;
    assert HitCount(p, tags) == 2;
  }

  /** Two matching tags give the full affinity. */
  lemma BothMatch(p: Personality, x: string, y: string)
    requires TagMatches(p, x) && TagMatches(p, y)
    ensures MatchPersonality(p, [x, y]) == 1.0
  {
    MatchPersonalityExtremes(p, [x, y]);
  }

  /** Two tags neither of which matches give no affinity. */
  lemma NeitherMatches(p: Personality, x: string, y: string)
    requires !TagMatches(p, x) && !TagMatches(p, y)
    ensures MatchPersonality(p, [x, y]) == 0.0
  {
    MatchPersonalityExtremes(p, [x, y]);
  }

  /** The first `n` characters of `s` form an ASCII word. */
  predicate AsciiLead(s: string, n: nat) {
    n <= |s| && IsAsciiWord(s[..n])
  }

  /** `s` and `s2` start with ASCII words that differ, ignoring case, at
      position `k`. */
  predicate LeadsDiffer(s: string, s2: string, k: nat) {
    AsciiLead(s, k + 1) && AsciiLead(s2, k + 1) && Lower(s[k]) != Lower(s2[k])
  }

  /** Texts whose ASCII starts differ beyond case normalise differently,
      whatever accents follow. */
  lemma DifferentLeads(s: string, s2: string, k: nat)
    requires LeadsDiffer(s, s2, k)
    ensures Normalize(Some(s)) != Normalize(Some(s2))
  {
    var t, t2 := s[..k + 1], s2[..k + 1];
    assert s == t + s[k + 1..];
    assert s2 == t2 + s2[k + 1..];
    NormalizeKeepsPrefix(t, s[k + 1..]);
    NormalizeKeepsPrefix(t2, s2[k + 1..]);
    LowerStrFacts(t);
    LowerStrFacts(t2);
    assert Normalize(Some(s))[k] == Lower(s[k]);
    assert Normalize(Some(s2))[k] == Lower(s2[k]);
  }

  /** Every book value leads differently from every profile value. */
  ghost predicate FacetsApart(bookValues: seq<string>, profileValues: seq<string>) {
    forall i, j :: 0 <= i < |bookValues| && 0 <= j < |profileValues| ==>
      exists k :: LeadsDiffer(bookValues[i], profileValues[j], k)
  }

  /** Both scalars are present and lead differently. */
  ghost predicate ScalarsApart(bookValue: Option<string>, profileValue: Option<string>) {
    bookValue.Some? && profileValue.Some? &&
    exists k :: LeadsDiffer(bookValue.value, profileValue.value, k)
  }

  /** Lists whose entries lead pairwise differently have no normal form
      in common. */
  lemma FormsApart(bookValues: seq<string>, profileValues: seq<string>)
    requires FacetsApart(bookValues, profileValues)
    ensures NormalForms(bookValues) * NormalForms(profileValues) == {}
  {
    forall x | x in NormalForms(bookValues) ensures x !in NormalForms(profileValues) {
      var t :| t in bookValues && t != "" && x == Normalize(Some(t));
      var i :| 0 <= i < |bookValues| && bookValues[i] == t;
      forall t2 | t2 in profileValues ensures x != Normalize(Some(t2)) {
        var j :| 0 <= j < |profileValues| && profileValues[j] == t2;
        var k :| LeadsDiffer(t, t2, k);
        DifferentLeads(t, t2, k);
      }
    }
  }

  /** Lists whose entries lead pairwise differently share nothing. */
  lemma DisjointLeads(bookValues: seq<string>, profileValues: seq<string>)
    requires FacetsApart(bookValues, profileValues)
    ensures Coverage(bookValues, profileValues) == 0.0
  {
    NormalizeListValues(bookValues);
    NormalizeListValues(profileValues);
    FormsApart(bookValues, profileValues);
  }

  /** Scalars that lead differently do not match. */
  lemma ApartScalars(bookValue: Option<string>, profileValue: Option<string>)
    requires ScalarsApart(bookValue, profileValue)
    ensures ScalarMatch(bookValue, profileValue) == 0.0
  {
    var k :| LeadsDiffer(bookValue.value, profileValue.value, k);
    DifferentLeads(bookValue.value, profileValue.value, k);
  }

  /** The mock book's two tags each fire a branch for the mock profile. */
  lemma MockTagsMatch()
    ensures MatchPersonality(MockProfile.personality, MockBook.personalityMatch) == 1.0
  {
    var p := MockProfile.personality;
    PhraseMatches(p, 0);
    PhraseMatches(p, 4);
    BothMatch(p, Rules[0].phrase, Rules[4].phrase);
  }

  /** The mock pair scores 0.125 + 0.125 + 0.2 + 0.15 + 0.05 + 0.1 = 0.75. */
  lemma MockPairScore()
    ensures ComputeScore(MockProfile, MockBook) == 0.75
  {
    MockGenres();
    MockThemes();
    MockEmotions();
    MockTagsMatch();
  }

  /** The mock pair shares genres, themes and emotions and agrees on tone
      and style, so the explanation names all five labels. */
  lemma MockExplanation()
    ensures forall f :: Contains(GenerateExplanation(MockBook, MockProfile), Label(f))
  {
    MockGenres();
    MockThemes();
    MockEmotions();
    forall f ensures ScoreCredits(MockBook, MockProfile, f) {
    }
    ExplanationNamesCreditedFacets(MockBook, MockProfile);
  }

  /** The tags of the personality test. */
  const MockTags := ["Alta apertura", "Alta extraversión", "Alta amabilidad"]

  /** "Alta amabilidad" lacks a character of every label whose threshold
      passes for O=75, C=55, E=80, A=50, N=30. */
  lemma MockThirdTagUnmatched()
    ensures !TagMatches(MockProfile.personality, MockTags[2])
  {
    ThirdTagChars();
    MockPassingRulesDefeated(MockTags[2]);
    MissingCharDefeats(MockProfile.personality, MockTags[2]);
  }

  lemma ThirdTagChars()
    ensures 'p' !in MockTags[2] && 'x' !in MockTags[2] && 'B' !in MockTags[2]
  {
    assert MockTags[2] == "Alta amabilidad";
  }

  /** A tag without 'p', 'x' and 'B' misses a character of each branch
      that passes for the test's personality. */
  lemma MockPassingRulesDefeated(tag: string)
    requires 'p' !in tag && 'x' !in tag && 'B' !in tag
    ensures forall i :: 0 <= i < |Rules| && Passes(Rules[i], MockProfile.personality) ==>
      exists k :: 0 <= k < |Rules[i].phrase| && Rules[i].phrase[k] !in tag
  {
    forall i | 0 <= i < |Rules| && Passes(Rules[i], MockProfile.personality)
      ensures exists k :: 0 <= k < |Rules[i].phrase| && Rules[i].phrase[k] !in tag
    {
      MockPassingRules(i);
      if i == 0 {
        assert Rules[0].phrase[6] == 'p';
      } else if i == 4 {
        assert Rules[4].phrase[6] == 'x';
      } else {
        assert Rules[9].phrase[0] == 'B';
      }
    }
  }

  /** For O=75, C=55, E=80, A=50, N=30 only the high-openness, the
      high-extraversion and the low-neuroticism branches can fire. */
  lemma MockPassingRules(i: nat)
    requires i < |Rules| && Passes(Rules[i], MockProfile.personality)
    ensures i == 0 || i == 4 || i == 9
  {
  }

  /** Two of the three tags fire: the affinity is 2/3. */
  lemma MockPersonalityScore()
    ensures MatchPersonality(MockProfile.personality, MockTags) == 2.0 / 3.0
  {
    var p := MockProfile.personality;
    PhraseMatches(p, 0);
    PhraseMatches(p, 4);
    MockThirdTagUnmatched();
    assert MockTags == [Rules[0].phrase, Rules[4].phrase, MockTags[2]];
    TwoOfThree(p, Rules[0].phrase, Rules[4].phrase, MockTags[2]);
  }

  /** No branch fires for a tag without a 'B' when every trait is 30:
      only the low branches pass, and all their labels start with 'B'. */
  lemma LowProfileTag(p: Personality, tag: string)
    requires p == UnrelatedProfile.personality
    requires 'B' !in tag
    ensures !TagMatches(p, tag)
  {
    RulePhrases();
    forall i | 0 <= i < |Rules| && Passes(Rules[i], p)
      ensures exists k :: 0 <= k < |Rules[i].phrase| && Rules[i].phrase[k] !in tag
    {
    }
    MissingCharDefeats(p, tag);
  }

  lemma UnrelatedGenres()
    ensures Coverage(MockBook.genres, UnrelatedProfile.preferences.genres) == 0.0
  {
    var book, stated := MockBook.genres, UnrelatedProfile.preferences.genres;
    assert LeadsDiffer(book[0], stated[0], 0);
    assert LeadsDiffer(book[1], stated[0], 0);
    DisjointLeads(book, stated);
  }

  lemma UnrelatedThemes()
    ensures Coverage(MockBook.themes, UnrelatedProfile.preferences.themes) == 0.0
  {
    var book, stated := MockBook.themes, UnrelatedProfile.preferences.themes;
    assert LeadsDiffer(book[0], stated[0], 0);
    assert LeadsDiffer(book[1], stated[0], 0);
    DisjointLeads(book, stated);
  }

  lemma UnrelatedEmotions()
    ensures Coverage(MockBook.emotionTags, UnrelatedProfile.preferences.emotionTags) == 0.0
  {
    var book, stated := MockBook.emotionTags, UnrelatedProfile.preferences.emotionTags;
    assert LeadsDiffer(book[0], stated[0], 1);
    assert LeadsDiffer(book[1], stated[0], 3);
    DisjointLeads(book, stated);
  }

  lemma UnrelatedScalars()
    ensures ScalarMatch(MockBook.tone, UnrelatedProfile.preferences.tone) == 0.0
    ensures ScalarMatch(MockBook.style, UnrelatedProfile.preferences.style) == 0.0
    ensures ScalarMatch(MockBook.ageRange, UnrelatedProfile.preferences.ageRange) == 0.0
  {
    var b, prefs := MockBook, UnrelatedProfile.preferences;
    assert LeadsDiffer(b.tone.value, prefs.tone.value, 0);
    assert LeadsDiffer(b.style.value, prefs.style.value, 0);
    assert LeadsDiffer(b.ageRange.value, prefs.ageRange.value, 0);
    ApartScalars(b.tone, prefs.tone);
    ApartScalars(b.style, prefs.style);
    ApartScalars(b.ageRange, prefs.ageRange);
  }

  lemma UnrelatedTags()
    ensures MatchPersonality(UnrelatedProfile.personality, MockBook.personalityMatch) == 0.0
  {
    var p, tags := UnrelatedProfile.personality, MockBook.personalityMatch;
    LowProfileTag(p, tags[0]);
    LowProfileTag(p, tags[1]);
    NeitherMatches(p, tags[0], tags[1]);
  }

  /** The unrelated profile shares nothing with the mock book. */
  lemma UnrelatedProfileScore()
    ensures ComputeScore(UnrelatedProfile, MockBook) == 0.0
  {
    UnrelatedGenres();
    UnrelatedThemes();
    UnrelatedEmotions();
    UnrelatedScalars();
    UnrelatedTags();
  }

  /** Against the unrelated profile no facet is credited, so the
      explanation is the fallback sentence. */
  lemma UnrelatedExplanation()
    ensures GenerateExplanation(MockBook, UnrelatedProfile) == FallbackSentence
  {
    UnrelatedGenres();
    UnrelatedThemes();
    UnrelatedEmotions();
    UnrelatedScalars();
    ExplanationNamesCreditedFacets(MockBook, UnrelatedProfile);
  }
}
