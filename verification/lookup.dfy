/** The lookups of `TugaLexicon` over tables already loaded: the dialect
    table, `get_phonemes` with its archaism -> homograph -> base-table chain,
    `get_syllables`, `get`, `get_wordlist`, `get_ipa_map` and
    `possible_postags`. A raised `ValueError`/`KeyError` is an `Err`. */
module Lookup {
  import opened Wrappers
  import opened PyStr
  import opened PyDict
  import opened Loaders
  import opened Sorting

  /** ISO dialect code to the region code of the dataset. */
  const DialectRegions: map<string, string> :=
    map["pt-PT" := "lbx", "pt-BR" := "rjx", "pt-AO" := "lda", "pt-MZ" := "mpx", "pt-TL" := "dli"]

  /** `lang_to_region` */
  function LangToRegion(lang: string): (r: Result<string>)
    ensures r.Ok? <==> lang in {"pt-PT", "pt-BR", "pt-AO", "pt-MZ", "pt-TL"}
    ensures r.Err? ==> r.error == UnsupportedDialect(lang)
    ensures lang == "pt-PT" ==> r == Ok("lbx")
    ensures lang == "pt-BR" ==> r == Ok("rjx")
    ensures lang == "pt-AO" ==> r == Ok("lda")
    ensures lang == "pt-MZ" ==> r == Ok("mpx")
    ensures lang == "pt-TL" ==> r == Ok("dli")
  {
    if lang in DialectRegions then Ok(DialectRegions[lang]) else Err(UnsupportedDialect(lang))
  }

  /** No two dialects share a region, so a region code names its dialect back. */
  lemma LangToRegionInjective(a: string, b: string)
    requires LangToRegion(a).Ok? && LangToRegion(b).Ok? && a != b
    ensures LangToRegion(a).value != LangToRegion(b).value
  {
  }

  // ---------------------------------------------------------------
  // get_phonemes

  /** The word `get_phonemes` looks up: stripped, lowercased, then replaced
      once by its modern spelling when it is an archaism. */
  function Resolve(archaic: map<string, string>, word: string): (w: string)
    ensures Lower(Strip(word)) in archaic ==> w == archaic[Lower(Strip(word))]
    ensures Lower(Strip(word)) !in archaic ==> w == Lower(Strip(word)) && Normalized(w)
  {
    var n := Lower(Strip(word));
    NormalizeIdempotent(word);
    if n in archaic then archaic[n] else n
  }

  /** A homograph entry answers the (word, POS) pair. */
  predicate HomographHit(homographs: map<string, Dict<string>>, w: string, pos: string)
  {
    w in homographs && pos in homographs[w].items
  }

  /** `get_phonemes(word, pos, region)`; `Err(KeyError(region))` is the
      `self.ipa[region]` that fails. */
  function GetPhonemes(archaic: map<string, string>, homographs: map<string, Dict<string>>, ipa: IpaMap,
                       word: string, pos: string, region: string): (r: Result<Option<string>>)
    ensures var w := Resolve(archaic, word);
      && (r.Err? <==> !HomographHit(homographs, w, pos) && region !in ipa)
      && (r.Err? ==> r.error == KeyError(region))
      && (HomographHit(homographs, w, pos) ==> r == Ok(Some(homographs[w].items[pos])))
      && (!HomographHit(homographs, w, pos) && region in ipa ==>
            (r == Ok(None) <==> w !in ipa[region] || pos !in ipa[region][w].items))
      && (!HomographHit(homographs, w, pos) && region in ipa && w in ipa[region] && pos in ipa[region][w].items ==>
            r == Ok(Some(ipa[region][w].items[pos])))
  {
    var w := Resolve(archaic, word);
    if HomographHit(homographs, w, pos) then Ok(Some(homographs[w].items[pos]))
    else if region !in ipa then Err(KeyError(region))
    else if w in ipa[region] && pos in ipa[region][w].items then Ok(Some(ipa[region][w].items[pos]))
    else Ok(None)
  }

  /** A homograph entry wins whatever the base table holds, even for a region it lacks. */
  lemma HomographPrecedence(archaic: map<string, string>, homographs: map<string, Dict<string>>, ipa1: IpaMap, ipa2: IpaMap,
                            word: string, pos: string, region: string)
    requires HomographHit(homographs, Resolve(archaic, word), pos)
    ensures GetPhonemes(archaic, homographs, ipa1, word, pos, region) == GetPhonemes(archaic, homographs, ipa2, word, pos, region)
    ensures GetPhonemes(archaic, homographs, ipa1, word, pos, region).Ok?
  {
  }

  /** Lookup ignores case: two words with the same `lower()` look up the same word. */
  lemma ResolveIgnoresCase(archaic: map<string, string>, a: string, b: string)
    requires Lower(a) == Lower(b)
    ensures Resolve(archaic, a) == Resolve(archaic, b)
  {
    StripCase(a);
    StripCase(b);
  }

  /** Lookup ignores whitespace before and after the word. */
  lemma ResolveIgnoresPadding(archaic: map<string, string>, pre: string, word: string, suf: string)
    requires AllSpace(pre) && AllSpace(suf)
    ensures Resolve(archaic, pre + word + suf) == Resolve(archaic, word)
  {
    StripPadded(pre, word, suf);
  }

  /** `get_phonemes` gives the same answer for any two spellings of a word that
      differ in case only, `word.upper()` and `word.lower()` among them. */
  lemma GetPhonemesIgnoresCase(archaic: map<string, string>, homographs: map<string, Dict<string>>, ipa: IpaMap,
                               a: string, b: string, pos: string, region: string)
    requires Lower(a) == Lower(b)
    ensures GetPhonemes(archaic, homographs, ipa, a, pos, region) == GetPhonemes(archaic, homographs, ipa, b, pos, region)
  {
    ResolveIgnoresCase(archaic, a, b);
  }

  lemma GetPhonemesCaseVariants(archaic: map<string, string>, homographs: map<string, Dict<string>>, ipa: IpaMap,
                                word: string, pos: string, region: string)
    ensures GetPhonemes(archaic, homographs, ipa, Upper(word), pos, region) == GetPhonemes(archaic, homographs, ipa, word, pos, region)
    ensures GetPhonemes(archaic, homographs, ipa, Lower(word), pos, region) == GetPhonemes(archaic, homographs, ipa, word, pos, region)
  {
    LowerUpper(word);
    LowerIdempotent(word);
    GetPhonemesIgnoresCase(archaic, homographs, ipa, Upper(word), word, pos, region);
    GetPhonemesIgnoresCase(archaic, homographs, ipa, Lower(word), word, pos, region);
  }

  /** `get_phonemes` ignores whitespace around the word. */
  lemma GetPhonemesIgnoresPadding(archaic: map<string, string>, homographs: map<string, Dict<string>>, ipa: IpaMap,
                                  pre: string, word: string, suf: string, pos: string, region: string)
    requires AllSpace(pre) && AllSpace(suf)
    ensures GetPhonemes(archaic, homographs, ipa, pre + word + suf, pos, region) == GetPhonemes(archaic, homographs, ipa, word, pos, region)
  {
    ResolveIgnoresPadding(archaic, pre, word, suf);
  }

  /** An archaism is replaced once and its replacement is looked up as stored:
      `pharmacia` finds the homograph entry of `farmácia` even in a region
      missing from `ipa`; the replacement `farmácia` is not replaced again,
      though it is itself listed; and a replacement with an upper-case letter
      is not lower-cased, so `velho` misses the entry of `novo`. */
  lemma ArchaismScenario()
    ensures var archaic := map["pharmacia" := "farm\U{E1}cia", "farm\U{E1}cia" := "farmacia"];
      var homographs := map["farm\U{E1}cia" := Dict(["NOUN"], map["NOUN" := "f\U{250}\U{27E}\U{2C8}masj\U{250}"])];
      GetPhonemes(archaic, homographs, map[], "pharmacia", "NOUN", "lbx") == Ok(Some("f\U{250}\U{27E}\U{2C8}masj\U{250}"))
    ensures var ipa: IpaMap := map["lbx" := map["novo" := Dict(["NOUN"], map["NOUN" := "\U{2C8}novu"])]];
      GetPhonemes(map["velho" := "Novo"], map[], ipa, "velho", "NOUN", "lbx") == Ok(None)
  {
    StripIdle("pharmacia");
    LowerFixed("pharmacia");
    StripIdle("velho");
    LowerFixed("velho");
    assert "Novo" != "novo" by {
      assert "Novo"[0] != "novo"[0];
    }
  }

  /** Two rows name the same (region, word, POS) key. */
  predicate SameKey(a: Entry, b: Entry)
  {
    (a.region, a.word, a.pos) == (b.region, b.word, b.pos)
  }

  /** Looking up, in the tables loaded from a file, the word, POS and region of
      the last row naming them gives that row's phonemes, when no archaism or
      homograph intervenes. */
  lemma GetPhonemesFindsRow(archaic: map<string, string>, homographs: map<string, Dict<string>>,
                            lines: seq<string>, j: nat)
    requires 1 <= j < |lines| && LangMapRow(lines[j]).Some?
    requires forall k :: j < k < |lines| && LangMapRow(lines[k]).Some? ==> !SameKey(LangMapRow(lines[k]).value, LangMapRow(lines[j]).value)
    requires var e := LangMapRow(lines[j]).value;
      e.word !in archaic && !HomographHit(homographs, e.word, e.pos)
    ensures var e := LangMapRow(lines[j]).value;
      GetPhonemes(archaic, homographs, LangMapTable(lines).ipa, e.word, e.pos, e.region) == Ok(Some(e.phonemes))
  {
    var e := LangMapRow(lines[j]).value;
    var es := LangMapRows(lines[1..]);
    LastRowOfKey(lines, j);
    LangMapLastWins(es, j - 1);
    assert LangMapTable(lines) == LangMapOf(es);
    StoredPhonemes(archaic, homographs, LangMapTable(lines).ipa, e.word, e.pos, e.region);
  }

  /** The uniqueness of row `j`'s key among the later lines, restated on the parsed rows. */
  lemma LastRowOfKey(lines: seq<string>, j: nat)
    requires 1 <= j < |lines| && LangMapRow(lines[j]).Some?
    requires forall k :: j < k < |lines| && LangMapRow(lines[k]).Some? ==> !SameKey(LangMapRow(lines[k]).value, LangMapRow(lines[j]).value)
    ensures var es := LangMapRows(lines[1..]);
      && es[j - 1] == LangMapRow(lines[j])
      && forall k :: j - 1 < k < |es| && es[k].Some? ==> !SameKey(es[k].value, es[j - 1].value)
  {
    var es := LangMapRows(lines[1..]);
    forall k | 0 <= k < |es|
      ensures es[k] == LangMapRow(lines[k + 1])
    {
      assert lines[1..][k] == lines[k + 1];
    }
  }

  lemma StoredPhonemes(archaic: map<string, string>, homographs: map<string, Dict<string>>, ipa: IpaMap,
                       w: string, pos: string, region: string)
    requires Normalized(w) && w !in archaic && !HomographHit(homographs, w, pos)
    requires region in ipa && w in ipa[region] && pos in ipa[region][w].items
    ensures GetPhonemes(archaic, homographs, ipa, w, pos, region) == Ok(Some(ipa[region][w].items[pos]))
  {
    assert Resolve(archaic, w) == w;
  }

  // ---------------------------------------------------------------
  // get_syllables, get

  /** `get_syllables(word, region)`: the word is used exactly as given. */
  function GetSyllables(syllables: SyllableMap, word: string, region: string): (r: Result<seq<string>>)
    ensures r.Err? <==> region !in syllables
    ensures r.Err? ==> r.error == UnsupportedDialect(region)
    ensures r.Ok? ==> (word in syllables[region] ==> r.value == syllables[region][word])
    ensures r.Ok? ==> (word !in syllables[region] ==> r.value == [])
  {
    if region !in syllables then Err(UnsupportedDialect(region))
    else Ok(if word in syllables[region] then syllables[region][word] else [])
  }

  /** Unlike `get_phonemes`, `get_syllables` is case-sensitive: an upper-case
      spelling of a stored word finds nothing. */
  lemma GetSyllablesCaseSensitive()
    ensures GetSyllables(map["lbx" := map["casa" := ["ca", "sa"]]], "casa", "lbx") == Ok(["ca", "sa"])
    ensures GetSyllables(map["lbx" := map["casa" := ["ca", "sa"]]], "CASA", "lbx") == Ok([])
  {
    assert "CASA" != "casa" by {
      assert "CASA"[0] != "casa"[0];
    }
  }

  /** The syllables returned for a loaded table are clean. */
  lemma GetSyllablesClean(lines: seq<string>, word: string, region: string)
    ensures var r := GetSyllables(LangMapTable(lines).syllables, word, region);
      r.Ok? ==> forall s :: s in r.value ==> ' ' !in s && '|' !in s
  {
    var m := LangMapTable(lines).syllables;
    LangMapTableClean(lines);
    CleanLookup(m, word, region);
  }

  lemma CleanLookup(m: SyllableMap, word: string, region: string)
    requires SyllablesClean(m)
    ensures var r := GetSyllables(m, word, region);
      r.Ok? ==> forall s :: s in r.value ==> ' ' !in s && '|' !in s
  {
  }

  /** The dict `get` returns. */
  datatype Answer = Answer(syllables: seq<string>, phonemes: Option<string>)

  /** `get(word, pos, region)`: syllables first, so their error is the one raised. */
  function Get(archaic: map<string, string>, homographs: map<string, Dict<string>>, t: LangMap,
               word: string, pos: string, region: string): (r: Result<Answer>)
    ensures r.Ok? <==> GetSyllables(t.syllables, word, region).Ok? && GetPhonemes(archaic, homographs, t.ipa, word, pos, region).Ok?
    ensures r.Ok? ==> r.value == Answer(GetSyllables(t.syllables, word, region).value, GetPhonemes(archaic, homographs, t.ipa, word, pos, region).value)
    ensures GetSyllables(t.syllables, word, region).Err? ==> r == Err(UnsupportedDialect(region))
    ensures GetSyllables(t.syllables, word, region).Ok? && GetPhonemes(archaic, homographs, t.ipa, word, pos, region).Err? ==>
      r == Err(KeyError(region))
  {
    match GetSyllables(t.syllables, word, region)
    case Err(e) => Err(e)
    case Ok(s) =>
      match GetPhonemes(archaic, homographs, t.ipa, word, pos, region)
      case Err(e) => Err(e)
      case Ok(p) => Ok(Answer(s, p))
  }

  /** On a loaded table `get` can only fail with the unsupported-region error:
      `ipa` and `syllables` have the same regions, so no `KeyError` escapes. */
  lemma GetNoKeyError(archaic: map<string, string>, homographs: map<string, Dict<string>>, lines: seq<string>,
                      word: string, pos: string, region: string)
    ensures var r := Get(archaic, homographs, LangMapTable(lines), word, pos, region);
      r.Err? ==> r.error == UnsupportedDialect(region) && region !in LangMapTable(lines).regions
  {
    LangMapTableKeeps(lines);
  }

  // ---------------------------------------------------------------
  // get_wordlist

  /** `get_wordlist(region)`: the region's words in ascending order. */
  method GetWordlist(syllables: SyllableMap, region: string) returns (r: Result<seq<string>>)
    ensures r.Err? <==> region !in syllables
    ensures r.Err? ==> r.error == UnsupportedDialect(region)
    ensures r.Ok? ==> Ascending(r.value) && forall w :: w in r.value <==> w in syllables[region]
  {
    if region !in syllables {
      return Err(UnsupportedDialect(region));
    }
    var words := SortedWords(syllables[region].Keys);
    return Ok(words);
  }

  // ---------------------------------------------------------------
  // get_ipa_map

  /** Words of `ipa[region]` with a transcription for `pos`, and theirs. */
  function BaseForPos(words: map<string, Dict<string>>, pos: string): map<string, string>
  {
    map w | w in words && pos in words[w].items :: words[w].items[pos]
  }

  /** `get_ipa_map(pos, region)`: the base entries for `pos`, overridden by the homograph entries. */
  function GetIpaMap(ipa: IpaMap, homographs: map<string, Dict<string>>, pos: string, region: string): (r: Result<map<string, string>>)
    ensures r.Err? <==> region !in ipa
    ensures r.Err? ==> r.error == UnsupportedDialect(region)
    ensures r.Ok? ==> forall w :: w in r.value <==>
      (w in ipa[region] && pos in ipa[region][w].items) || HomographHit(homographs, w, pos)
    ensures r.Ok? ==> forall w :: HomographHit(homographs, w, pos) ==> r.value[w] == homographs[w].items[pos]
    ensures r.Ok? ==> forall w :: w in r.value && !HomographHit(homographs, w, pos) ==> r.value[w] == ipa[region][w].items[pos]
  {
    if region !in ipa then Err(UnsupportedDialect(region))
    else Ok(BaseForPos(ipa[region], pos) + BaseForPos(homographs, pos))
  }

  /** For a word already in normal form that is no archaism, the flat map and
      `get_phonemes` agree. */
  lemma GetIpaMapAgrees(archaic: map<string, string>, ipa: IpaMap, homographs: map<string, Dict<string>>,
                        pos: string, region: string, w: string)
    requires region in ipa && Normalized(w) && w !in archaic
    ensures var m := GetIpaMap(ipa, homographs, pos, region).value;
      GetPhonemes(archaic, homographs, ipa, w, pos, region) == (if w in m then Ok(Some(m[w])) else Ok(None))
  {
    assert Resolve(archaic, w) == w;
  }

  // ---------------------------------------------------------------
  // possible_postags

  function TagsOf(words: map<string, Dict<string>>): map<string, seq<string>>
  {
    map w | w in words :: words[w].keys
  }

  /** `possible_postags`: every word of region `lbx` and of the homograph table
      with its POS tags, the homograph tags replacing the base ones. */
  function PossiblePostags(ipa: IpaMap, homographs: map<string, Dict<string>>): (r: Result<map<string, seq<string>>>)
    ensures r.Err? <==> "lbx" !in ipa
    ensures r.Err? ==> r.error == KeyError("lbx")
    ensures r.Ok? ==> r.value.Keys == ipa["lbx"].Keys + homographs.Keys
    ensures r.Ok? ==> forall w :: w in homographs ==> r.value[w] == homographs[w].keys
    ensures r.Ok? ==> forall w :: w in ipa["lbx"] && w !in homographs ==> r.value[w] == ipa["lbx"][w].keys
  {
    if "lbx" !in ipa then Err(KeyError("lbx"))
    else Ok(TagsOf(ipa["lbx"]) + TagsOf(homographs))
  }

  /** Every tag listed for a loaded word is one `get_phonemes` answers in region `lbx`. */
  lemma PostagsResolve(archaic: map<string, string>, lines: seq<string>, homographs: map<string, Dict<string>>,
                       w: string, p: string)
    requires forall u :: u in homographs ==> homographs[u].Valid()
    requires PossiblePostags(LangMapTable(lines).ipa, homographs).Ok?
    requires w in PossiblePostags(LangMapTable(lines).ipa, homographs).value
    requires p in PossiblePostags(LangMapTable(lines).ipa, homographs).value[w]
    requires w !in archaic && (w in homographs ==> Normalized(w))
    ensures GetPhonemes(archaic, homographs, LangMapTable(lines).ipa, w, p, "lbx").value.Some?
  {
    var t := LangMapTable(lines);
    if w in homographs {
      assert p in homographs[w].keys;
    } else {
      StoredWord(lines, "lbx", w);
      assert p in t.ipa["lbx"][w].keys;
    }
    assert Resolve(archaic, w) == w;
  }

  /** A word stored for a region of a loaded table is in normal form and its POS dict is well formed. */
  lemma StoredWord(lines: seq<string>, r: string, w: string)
    requires r in LangMapTable(lines).ipa && w in LangMapTable(lines).ipa[r]
    ensures Normalized(w) && LangMapTable(lines).ipa[r][w].Valid()
  {
    LangMapTableKeeps(lines);
    LangMapOfFlattens(LangMapRows(lines[1..]));
  }
}
