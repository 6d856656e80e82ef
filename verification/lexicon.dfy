/** The `TugaLexicon` object. Creating it loads the two agreement tables, the
    homograph table and the archaism table; the regional dataset (`ipa`,
    `syllables`, `regions`) is loaded on first use, and loaded again on any
    later use that finds the cached structure empty. The file contents are
    given as lines; the ghost counter `loads` counts the dataset loads. */
module TugaLexicon {
  import opened Wrappers
  import opened PyDict
  import opened Loaders
  import opened Sorting
  import Lookup
  import Agreement

  /** A loaded agreement table is a well-formed dict listing at least one new spelling per entry. */
  lemma AoTableUsable(lines: seq<string>)
    ensures AoTable(lines).Valid() && Agreement.NonEmptyLists(AoTable(lines))
  {
    forall w | w in AoTable(lines).items
      ensures |AoTable(lines).items[w]| >= 1
    {
      AoTableFacts(lines, w);
    }
    AoTableFacts(lines, "");
  }

  class Lexicon {
    const dictionaryLines: seq<string>
    ghost const aoPtLines: seq<string>
    ghost const aoBrLines: seq<string>
    ghost const homographLines: seq<string>
    ghost const archaismLines: seq<string>

    const aoPt: Agreement.AoDict
    const aoBr: Agreement.AoDict
    const homographs: map<string, Dict<string>>
    const archaicWords: map<string, string>

    var ipaCache: IpaMap
    var syllablesCache: SyllableMap
    var regionsCache: set<string>
    ghost var loads: nat

    /** The regional dataset has not been loaded yet. */
    predicate Unloaded()
      reads this
    {
      ipaCache == map[] && syllablesCache == map[] && regionsCache == {}
    }

    /** The caches hold what `_load_lang_map` returns for the dataset. */
    ghost predicate Loaded()
      reads this
    {
      LangMap(ipaCache, syllablesCache, regionsCache) == LangMapTable(dictionaryLines)
    }

    ghost predicate Valid()
      reads this
    {
      && aoPt == AoTable(aoPtLines) && aoBr == AoTable(aoBrLines)
      && homographs == HomographTable(homographLines)
      && archaicWords == ArchaismTable(archaismLines)
      && aoPt.Valid() && aoBr.Valid() && Agreement.NonEmptyLists(aoPt) && Agreement.NonEmptyLists(aoBr)
      && (Unloaded() || Loaded())
    }

    /** `__init__`, with each data file given as its lines. */
    constructor(dictionary: seq<string>, aoPtFile: seq<string>, aoBrFile: seq<string>,
                homographFile: seq<string>, archaismFile: seq<string>)
      ensures Valid() && Unloaded() && loads == 0
      ensures dictionaryLines == dictionary
      ensures aoPt == AoTable(aoPtFile) && aoBr == AoTable(aoBrFile)
      ensures homographs == HomographTable(homographFile) && archaicWords == ArchaismTable(archaismFile)
    {
      dictionaryLines := dictionary;
      aoPtLines, aoBrLines, homographLines, archaismLines := aoPtFile, aoBrFile, homographFile, archaismFile;
      var pt := LoadAo(aoPtFile);
      var br := LoadAo(aoBrFile);
      var homo := LoadHomographs(homographFile);
      var archaic := LoadArchaisms(archaismFile);
      aoPt, aoBr, homographs, archaicWords := pt, br, homo, archaic;
      ipaCache, syllablesCache, regionsCache := map[], map[], {};
      loads := 0;
      new;
      AoTableUsable(aoPtFile);
      AoTableUsable(aoBrFile);
    }

    /** Loads the regional dataset into the three caches. */
    method Reload()
      requires Valid()
      modifies this
      ensures Valid() && Loaded()
      ensures loads == old(loads) + 1
    {
      ipaCache, syllablesCache, regionsCache := LoadLangMap(dictionaryLines);
      loads := loads + 1;
    }

    /** The `ipa` property: reloads whenever the cached `ipa` is empty. */
    method Ipa() returns (ipa: IpaMap)
      requires Valid()
      modifies this
      ensures Valid() && Loaded()
      ensures ipa == LangMapTable(dictionaryLines).ipa
      ensures loads == old(loads) + (if old(ipaCache) == map[] then 1 else 0)
      ensures LangMapTable(dictionaryLines).ipa == map[] ==> loads == old(loads) + 1
    {
      if ipaCache == map[] {
        Reload();
      }
      ipa := ipaCache;
    }

    /** The `syllables` property: reloads whenever the cached `syllables` is empty. */
    method Syllables() returns (syllables: SyllableMap)
      requires Valid()
      modifies this
      ensures Valid() && Loaded()
      ensures syllables == LangMapTable(dictionaryLines).syllables
      ensures loads == old(loads) + (if old(syllablesCache) == map[] then 1 else 0)
      ensures LangMapTable(dictionaryLines).syllables == map[] ==> loads == old(loads) + 1
    {
      if syllablesCache == map[] {
        Reload();
      }
      syllables := syllablesCache;
    }

    /** The `regions` property: reloads whenever the cached `regions` is empty. */
    method Regions() returns (regions: set<string>)
      requires Valid()
      modifies this
      ensures Valid() && Loaded()
      ensures regions == LangMapTable(dictionaryLines).regions
      ensures loads == old(loads) + (if old(regionsCache) == {} then 1 else 0)
      ensures LangMapTable(dictionaryLines).regions == {} ==> loads == old(loads) + 1
    {
      if regionsCache == {} {
        Reload();
      }
      regions := regionsCache;
    }

    /** `get_phonemes`: the dataset is only touched when no homograph answers. */
    method GetPhonemes(word: string, pos: string, region: string) returns (r: Result<Option<string>>)
      requires Valid()
      modifies this
      ensures Valid()
      ensures r == Lookup.GetPhonemes(archaicWords, homographs, LangMapTable(dictionaryLines).ipa, word, pos, region)
      ensures Lookup.HomographHit(homographs, Lookup.Resolve(archaicWords, word), pos) ==>
        && ipaCache == old(ipaCache) && syllablesCache == old(syllablesCache) && regionsCache == old(regionsCache)
        && loads == old(loads)
      ensures !Lookup.HomographHit(homographs, Lookup.Resolve(archaicWords, word), pos) ==>
        Loaded() && loads == old(loads) + (if old(ipaCache) == map[] then 1 else 0)
    {
      var w := Lookup.Resolve(archaicWords, word);
      if Lookup.HomographHit(homographs, w, pos) {
        return Ok(Some(homographs[w].items[pos]));
      }
      var ipa: IpaMap := Ipa();
      if region !in ipa {
        return Err(KeyError(region));
      }
      if w in ipa[region] && pos in ipa[region][w].items {
        r := Ok(Some(ipa[region][w].items[pos]));
      } else {
        r := Ok(None);
      }
    }

    /** `get_syllables`: reads `syllables` twice before the region check, so an
        empty dataset is loaded twice. */
    method GetSyllables(word: string, region: string) returns (r: Result<seq<string>>)
      requires Valid()
      modifies this
      ensures Valid() && Loaded()
      ensures r == Lookup.GetSyllables(LangMapTable(dictionaryLines).syllables, word, region)
      ensures LangMapTable(dictionaryLines).syllables == map[] ==> loads == old(loads) + 2
      ensures LangMapTable(dictionaryLines).syllables != map[] ==>
        loads == old(loads) + (if old(syllablesCache) == map[] then 1 else 0)
    {
      var _ := Syllables();
      var syllables := Syllables();
      if region !in syllables {
        return Err(UnsupportedDialect(region));
      }
      syllables := Syllables();
      r := Ok(if word in syllables[region] then syllables[region][word] else []);
    }

    /** `get`: syllables first, then phonemes. */
    method Get(word: string, pos: string, region: string) returns (r: Result<Lookup.Answer>)
      requires Valid()
      modifies this
      ensures Valid()
      ensures r == Lookup.Get(archaicWords, homographs, LangMapTable(dictionaryLines), word, pos, region)
      ensures Loaded()
      ensures LangMapTable(dictionaryLines).syllables == map[] ==> loads == old(loads) + 2
      ensures LangMapTable(dictionaryLines).syllables != map[] ==>
        loads == old(loads) + (if old(syllablesCache) == map[] then 1 else 0)
    {
      LangMapTableKeeps(dictionaryLines);
      var s := GetSyllables(word, region);
      if s.Err? {
        return Err(s.error);
      }
      // The dataset gives `ipa` and `syllables` the same regions, so once the
      // region is found in `syllables` the `ipa[region]` of `get_phonemes` cannot fail.
      var p := GetPhonemes(word, pos, region);
      r := Ok(Lookup.Answer(s.value, p.value));
    }

    /** `get_wordlist` */
    method GetWordlist(region: string) returns (r: Result<seq<string>>)
      requires Valid()
      modifies this
      ensures Valid() && Loaded()
      ensures loads == old(loads) + (if old(syllablesCache) == map[] then 1 else 0)
      ensures var syllables := LangMapTable(dictionaryLines).syllables;
        && (r.Err? <==> region !in syllables)
        && (r.Err? ==> r.error == UnsupportedDialect(region))
        && (r.Ok? ==> Ascending(r.value) && forall w :: w in r.value <==> w in syllables[region])
    {
      var syllables := Syllables();
      r := Lookup.GetWordlist(syllables, region);
    }

    /** `get_ipa_map` */
    method GetIpaMap(pos: string, region: string) returns (r: Result<map<string, string>>)
      requires Valid()
      modifies this
      ensures Valid() && Loaded()
      ensures loads == old(loads) + (if old(ipaCache) == map[] then 1 else 0)
      ensures r == Lookup.GetIpaMap(LangMapTable(dictionaryLines).ipa, homographs, pos, region)
    {
      var ipa: IpaMap := Ipa();
      r := Lookup.GetIpaMap(ipa, homographs, pos, region);
    }

    /** `possible_postags`, computed afresh on every call. */
    method PossiblePostags() returns (r: Result<map<string, seq<string>>>)
      requires Valid()
      modifies this
      ensures Valid() && Loaded()
      ensures loads == old(loads) + (if old(ipaCache) == map[] then 1 else 0)
      ensures r == Lookup.PossiblePostags(LangMapTable(dictionaryLines).ipa, homographs)
    {
      var ipa: IpaMap := Ipa();
      r := Lookup.PossiblePostags(ipa, homographs);
    }

    /** `normalize_ao1900` over `AO1990`. */
    method NormalizeAo1990(sentence: string) returns (r: string)
      requires Valid()
      ensures r == Agreement.NormalizeAo1990(Agreement.Ao1990(aoPt, aoBr), sentence)
    {
      var ao := Agreement.Ao1990(aoPt, aoBr);
      r := Agreement.NormalizeAo1990(ao, sentence);
    }

    /** `reverse_ao1900_pt` */
    method ReverseAo1990Pt(sentence: string) returns (r: string)
      requires Valid()
      ensures r == Agreement.ReverseSentence(Agreement.ReverseOf(aoPt), sentence)
    {
      r := Agreement.ReverseAo1990(aoPt, sentence);
    }

    /** `reverse_ao1900_br` */
    method ReverseAo1990Br(sentence: string) returns (r: string)
      requires Valid()
      ensures r == Agreement.ReverseSentence(Agreement.ReverseOf(aoBr), sentence)
    {
      r := Agreement.ReverseAo1990(aoBr, sentence);
    }
  }
}
