# tugalex lexicon core in Dafny

This project models the `TugaLexicon` class of tugalex, a lexicon for five
Portuguese dialects. The class does three jobs:

- It reads five CSV data files into tables:
  - archaisms (old word to modern word);
  - heterophonic homographs (word to POS to IPA);
  - the regional dataset (region to word to POS to phonemes, region to word to syllables, and the region set);
  - two orthographic-agreement tables (the 1990 Acordo Ortográfico, old spelling to new spellings, for Portugal and for Brazil).
- It answers lookups on those tables.
- It rewrites sentences between pre-agreement and post-agreement spelling.

The file contents are inputs here: every loader takes the file's lines.

Modules:

- `Wrappers`: `Option`, `Result` and the two errors the class raises.
  - `UnsupportedDialect` stands for its `ValueError`.
  - `KeyError` stands for its bare dict-indexing failures.
- `PyStr`: the Python string operations the class relies on, written out.
  - `split` with a maximum split count, `split()` on whitespace, `strip`, `replace`, `join`.
  - `lower`/`upper`.
  - Lemmas such as `Join(Split(s, sep), sep) == s`, and the exact number of pieces `split(c, n)` yields.
- `PyDict`: an insertion-ordered Python dict (`Dict`: key sequence plus map).
  - `Assoc` is the last-write-wins map of a sequence of assignments.
  - `Merge` is `{**a, **b}`.
- `Sorting`: code-point string order and a sort of a set of words.
- `Loaders`: the four loaders.
  - Each is a method with a loop over the lines, proved equal to a fold over the parsed rows.
  - Each fold is then characterised: which rows are skipped, which row wins for a key, and the invariants of the regional dataset.
- `Lookup`: `lang_to_region`, `get_phonemes`, `get_syllables`, `get`, `get_wordlist`, `get_ipa_map` and `possible_postags`, as functions of the loaded tables.
- `Agreement`: the `AO1990` merge, `silent_p_words`, `voiced_u_words`, `normalize_ao1900`, and the reverse rewriting.
  - The reverse rewriting is a nested loop building the reverse table, followed by a token-wise rewrite.
- `TugaLexicon`: the class itself (`Lexicon`).
  - The constructor loads the agreement, homograph and archaism tables.
  - The regional dataset sits in three cache fields, loaded lazily by the `ipa`, `syllables` and `regions` properties.
  - Each property reloads whenever its own cache is empty.
  - A ghost counter `loads` counts the loads. For example, it shows that `get_syllables` loads an empty dataset twice.

Where the docstrings and the code disagree, the model follows the code:

- `get_syllables` neither lowercases nor strips the word: `"CASA"` does not find `"casa"` (`Lookup.GetSyllablesCaseSensitive`).
- A missing word yields `[]`, not `None`, in `get`.
- `get_phonemes` raises `KeyError` for an unknown region, unless a homograph has already answered.
- The regional loader returns empty structures only for a file with no lines at all. A file whose data rows are all too short gives the same result (`Loaders.LangMapTableEmpty`).

## Model

| member | source | states |
|---|---|---|
| Lookup.LangToRegion | tugalex/__init__.py:28-34 | `pt-PT` maps to `lbx`, `pt-BR` to `rjx`, `pt-AO` to `lda`, `pt-MZ` to `mpx` and `pt-TL` to `dli`; every other code is `Unsupported dialect` naming that code |
| Lookup.LangToRegionInjective | tugalex/__init__.py:28-34 | distinct dialect codes map to distinct regions |
| TugaLexicon.Lexicon.constructor | tugalex/__init__.py:36-68 | the agreement, homograph and archaism tables are those the loaders build from the given files; the three dataset caches start empty |
| Loaders.DropHeader | tugalex/__init__.py:74 | the first line is dropped and all the others kept, in order |
| Loaders.ArchaismRow | tugalex/__init__.py:75-81 | a line yields a row exactly when it holds at least two commas; the old and new words are its first two comma-free fields, with quotes removed |
| Loaders.LoadArchaisms | tugalex/__init__.py:71-83 | the loop builds the last-write-wins map of the parsed rows after the header |
| Loaders.ArchaismLastWins | tugalex/__init__.py:82 | a row not overridden by a later row for the same old word gives the stored new word |
| Loaders.ArchaismDomain | tugalex/__init__.py:74-82 | a word is in the table exactly when some parsable row after the header names it |
| Loaders.HomographRow | tugalex/__init__.py:90-96 | a line yields a row exactly when it holds at least two commas; word, POS and IPA rejoined with commas give back the quote-free line |
| Loaders.LoadHomographs | tugalex/__init__.py:86-100 | the loop builds the two-level table of the parsed rows after the header |
| Loaders.HomographsFlatten | tugalex/__init__.py:97-99 | the two-level table holds exactly the last-write-wins assignments of (word, POS) to IPA; no inner dict is empty |
| Loaders.HomographLastWins | tugalex/__init__.py:99 | a row not overridden later for the same word and POS gives the stored IPA |
| Loaders.LangMapRow | tugalex/__init__.py:133-151 | a line yields an entry exactly when it holds at least six commas; the entry's word and region are stripped and lower-case, its POS upper-case, its phonemes free of vertical bars, and its syllables free of spaces and vertical bars |
| Loaders.LangMapRowParts | tugalex/__init__.py:133-150 | the lower-cased line is its seven fields joined by commas, the first six fields hold no comma; the word is field 1 stripped and lower-cased, the POS field 2 upper-cased, the phonemes field 4 with bars turned into middle dots and stripped, the region field 6 stripped, and the syllables are a non-empty list (`[""]` for a blank field) that joined with vertical bars gives field 5 stripped with its spaces turned into vertical bars |
| Loaders.LoadLangMap | tugalex/__init__.py:120-153 | the loop produces the fold of the parsed entries after the header, and empty structures for a file without lines |
| Loaders.StoreRow | tugalex/__init__.py:141-151 | one row's updates to the region set, syllable map and IPA map are one `AddEntry` step |
| Loaders.LangMapTableKeeps | tugalex/__init__.py:141-151 | the region set, the IPA regions and the syllable regions coincide, and per region the IPA words and the syllable words coincide; stored words and regions are normalised, tags upper-case, phonemes free of vertical bars, syllables free of spaces and vertical bars |
| Loaders.LangMapOfKeeps | tugalex/__init__.py:141-151 | every fold of well-formed entries keeps those invariants |
| Loaders.AddEntryKeeps | tugalex/__init__.py:141-151 | one row's updates keep those invariants |
| Loaders.LangMapTableEmpty | tugalex/__init__.py:129-135 | a file with no row after the header holding six commas gives three empty structures |
| Loaders.LangMapOfFlattens | tugalex/__init__.py:143-151 | the IPA map holds exactly the last-write-wins assignments of (region, word, POS) to phonemes, and the syllable map those of (region, word) to syllables |
| Loaders.LangMapLastWins | tugalex/__init__.py:151 | an entry not overridden later for the same region, word and POS gives the stored phonemes |
| Loaders.SyllablesLastWins | tugalex/__init__.py:150 | an entry not overridden later for the same region and word gives the stored syllables |
| Loaders.LangMapDomain | tugalex/__init__.py:141-151 | (region, word, POS) is stored exactly when some entry carries it |
| Loaders.AoRow | tugalex/__init__.py:172-179 | a line yields a row exactly when it holds a comma; the key is the comma-free text before the first comma, no spelling holds ", ", and the spellings joined with ", " give back the rest of the quote-free line |
| Loaders.LoadAo | tugalex/__init__.py:166-180 | the loop builds the ordered dict of all rows, the first line included |
| Loaders.AoTableFacts | tugalex/__init__.py:171-179 | the table is a well-formed dict, every list is non-empty, and a spelling is a key exactly when some row names it |
| Loaders.AoLastWins | tugalex/__init__.py:179 | a row not overridden later for the same old spelling gives the stored list |
| TugaLexicon.AoTableUsable | tugalex/__init__.py:61-62 | both loaded agreement tables are well formed with non-empty lists |
| TugaLexicon.Lexicon.Reload | tugalex/__init__.py:191 | the three caches receive the loaded dataset, and one load is counted |
| TugaLexicon.Lexicon.Ipa | tugalex/__init__.py:182-192 | returns the dataset's IPA map; it loads exactly when the cached map is empty, so an empty dataset is loaded on every access |
| TugaLexicon.Lexicon.Syllables | tugalex/__init__.py:194-204 | the same, for the syllable map |
| TugaLexicon.Lexicon.Regions | tugalex/__init__.py:206-216 | the same, for the region set |
| Lookup.Resolve | tugalex/__init__.py:248-252 | the word looked up is the stripped lower-case word when that is not an archaism, and otherwise exactly the archaism's stored replacement |
| Lookup.ArchaismScenario | tugalex/__init__.py:248-256 | `pharmacia` finds the homograph entry of its replacement `farmácia` even with no regional data, and the replacement is neither replaced again nor lower-cased |
| Lookup.GetPhonemes | tugalex/__init__.py:236-258 | a homograph hit answers first; otherwise a missing region is a `KeyError`, a stored (word, POS) gives its stored phonemes, and a missing word or POS gives `None` |
| Lookup.HomographPrecedence | tugalex/__init__.py:254-256 | on a homograph hit the answer does not depend on the base table at all |
| Lookup.ResolveIgnoresCase | tugalex/__init__.py:248 | two words with the same lower-case form resolve to the same word |
| Lookup.GetPhonemesIgnoresCase | tugalex/__init__.py:248-258 | two words with the same lower-case form get the same phoneme answer |
| Lookup.GetPhonemesCaseVariants | tugalex/__init__.py:248-258 | the upper-cased and the lower-cased word get the same phoneme answer as the word itself |
| Lookup.ResolveIgnoresPadding | tugalex/__init__.py:248 | any whitespace before and after the word leaves the word looked up unchanged |
| Lookup.GetPhonemesIgnoresPadding | tugalex/__init__.py:248-258 | any whitespace before and after the word leaves the phoneme answer unchanged |
| Lookup.StoredPhonemes | tugalex/__init__.py:248-258 | a normalised word that is neither an archaism nor a homograph for the POS gets the phonemes stored for it |
| Lookup.GetPhonemesFindsRow | tugalex/__init__.py:248-258 | an entry of the dataset that no later row overrides, and that no archaism or homograph shadows, is what `get_phonemes` answers |
| TugaLexicon.Lexicon.GetPhonemes | tugalex/__init__.py:236-258 | returns the phoneme answer for the loaded tables; a homograph hit leaves the caches untouched and loads nothing, any other call leaves the dataset loaded, loading it exactly when the cached IPA map was empty |
| Lookup.GetSyllables | tugalex/__init__.py:277-279 | a region missing from the syllable map is `Unsupported dialect`; otherwise the stored list for the exact word, or `[]` |
| Lookup.GetSyllablesCaseSensitive | tugalex/__init__.py:279 | `"CASA"` does not find the syllables of `"casa"` |
| Lookup.GetSyllablesClean | tugalex/__init__.py:277-279 | no returned syllable holds a space or a vertical bar |
| TugaLexicon.Lexicon.GetSyllables | tugalex/__init__.py:260-279 | returns the syllable answer for the loaded dataset; an empty dataset is loaded twice, a non-empty one exactly when the cached syllable map was empty |
| Lookup.Get | tugalex/__init__.py:281-300 | succeeds exactly when both lookups do, pairing their answers; the syllable error comes first, and a phoneme `KeyError` after a successful syllable lookup is passed on |
| Lookup.GetNoKeyError | tugalex/__init__.py:297-300 | on a loaded dataset `get` fails only with `Unsupported dialect`, for a region not in the region set |
| TugaLexicon.Lexicon.Get | tugalex/__init__.py:281-300 | returns the `get` answer for the loaded tables and leaves the dataset loaded; an empty dataset is loaded twice, a non-empty one exactly when the cached syllable map was empty |
| Lookup.GetWordlist | tugalex/__init__.py:315-318 | a missing region is `Unsupported dialect`; otherwise a strictly ascending list holding exactly the region's words |
| Sorting.SortedWords | tugalex/__init__.py:316 | the result is strictly ascending and holds exactly the given words |
| Sorting.AscendingUnique | tugalex/__init__.py:316 | two strictly ascending lists with the same elements are equal, so the sorted word list is unique |
| Sorting.BelowTotal | tugalex/__init__.py:316 | code-point order is total; with `BelowIrreflexive` and `BelowTransitive` it is a strict order |
| TugaLexicon.Lexicon.GetWordlist | tugalex/__init__.py:302-318 | the same, on the loaded dataset, which it leaves loaded, loading it exactly when the cached syllable map was empty |
| Lookup.GetIpaMap | tugalex/__init__.py:331-344 | a missing region is `Unsupported dialect`; the keys are the region's words having the POS together with the homographs having it, and the homograph value wins |
| Lookup.GetIpaMapAgrees | tugalex/__init__.py:334-344 | for a normalised word that is not an archaism, the flat map agrees with `get_phonemes` |
| TugaLexicon.Lexicon.GetIpaMap | tugalex/__init__.py:320-344 | the same, on the loaded dataset, which it leaves loaded, loading it exactly when the cached IPA map was empty |
| Lookup.PossiblePostags | tugalex/__init__.py:354-363 | fails with `KeyError('lbx')` unless `lbx` is loaded; keys are the `lbx` words together with the homographs; a homograph's tags are its POS keys, any other word's tags its `lbx` POS keys, in insertion order |
| Lookup.PostagsResolve | tugalex/__init__.py:357-363 | every tag listed for a word gives a phoneme answer for that word in `lbx` |
| TugaLexicon.Lexicon.PossiblePostags | tugalex/__init__.py:346-363 | the same, on the loaded tables, which it leaves loaded, loading the dataset exactly when the cached IPA map was empty |
| Agreement.Ao1990 | tugalex/__init__.py:370-372 | the keys of both tables, Brazilian values overriding Portuguese ones, and Portuguese key order first |
| Agreement.SilentPWords | tugalex/__init__.py:382-387 | exactly the old spellings holding `mpc`, `mpç` or `mpt` that have a new spelling lacking that cluster |
| Agreement.VoicedUWords | tugalex/__init__.py:399-402 | exactly the new spellings of Brazilian entries whose old spelling holds `ü` |
| Agreement.NormalizeTokens | tugalex/__init__.py:414-415 | when the sentence's words listed in the table have tokens as first new spellings, the output has as many tokens as the input; a token in the table becomes its first new spelling, and every other token is kept |
| Agreement.NormalizeEmptySpelling | tugalex/__init__.py:414-415 | an empty new spelling makes a two-token sentence come back with one token |
| TugaLexicon.Lexicon.NormalizeAo1990 | tugalex/__init__.py:404-415 | rewrites with the merged table |
| Agreement.ReverseTable | tugalex/__init__.py:427-430 | the nested loop builds the last-write-wins map of every (new, old) pair in table order |
| Agreement.ReverseDomain | tugalex/__init__.py:427-430 | a spelling is in the reverse table exactly when some entry lists it |
| Agreement.ReverseLastWins | tugalex/__init__.py:427-430 | a spelling maps back to the last entry, in table order, whose list holds it |
| Agreement.ReverseValues | tugalex/__init__.py:430 | every value of the reverse table is an old spelling of the table |
| Agreement.ReverseAo1990 | tugalex/__init__.py:427-433 | rewrites every token through the reverse table |
| Agreement.ReverseTokens | tugalex/__init__.py:432-433 | when the sentence's words listed in the reverse table map back to tokens, the output has as many tokens as the input; tokens in the reverse table become their old spelling, and the others are kept |
| Agreement.ReverseFirst | tugalex/__init__.py:427-430 | an old spelling's first new spelling maps back to it whenever no other old spelling lists that new spelling |
| Agreement.RoundTrip | tugalex/__init__.py:414-433 | normalising with one table and reversing with another gives a sentence of old spellings back when both tables give each of its words the same spellings and, in the reversing table, each word's first new spelling is a token no other old spelling lists |
| Agreement.RoundTripBr | tugalex/__init__.py:414-451 | `reverse_ao1900_br` undoes `normalize_ao1900` on a sentence of old Brazilian spellings whose first new spellings are tokens no other Brazilian entry lists |
| Agreement.RoundTripPt | tugalex/__init__.py:414-433 | `reverse_ao1900_pt` undoes `normalize_ao1900` on a sentence of old Portuguese spellings that the Brazilian table does not list and whose first new spellings are tokens no other Portuguese entry lists |
| Agreement.RoundTripPtOverridden | tugalex/__init__.py:370-433 | a Portuguese old spelling also listed by the Brazilian table is normalised to the Brazilian spelling and does not come back through `reverse_ao1900_pt` |
| Agreement.RoundTripSharedKeeps | tugalex/__init__.py:414-433 | with `a -> x`, `b -> y`, `c -> y`, the word `a` still comes back: a shared spelling affects only the words that list it |
| Agreement.RoundTripSharedMoves | tugalex/__init__.py:414-433 | in the same table `b` comes back as `c`, the later entry listing the shared spelling |
| TugaLexicon.Lexicon.ReverseAo1990Pt | tugalex/__init__.py:417-433 | rewrites with the reverse of the Portuguese table |
| TugaLexicon.Lexicon.ReverseAo1990Br | tugalex/__init__.py:435-451 | rewrites with the reverse of the Brazilian table |
| PyStr.SplitNCount | tugalex/__init__.py:78 | `split(c, n)` gives one more piece than the number of cuts, which is the smaller of `n` and the count of `c` |
| PyStr.SplitNPieces | tugalex/__init__.py:78 | no piece but the last holds the separator, and neither does the last when there were at most `n` separators |
| PyStr.JoinSplit | tugalex/__init__.py:179 | joining the pieces of a split with the same separator gives the string back |
| PyStr.WordsJoin | tugalex/__init__.py:414-415 | splitting a space-joined list of tokens on whitespace gives the tokens back |
| PyStr.NormalizeIdempotent | tugalex/__init__.py:248 | stripping and lower-casing twice is the same as once |

## Left out

- File access: opening the files, the `FileNotFoundError` checks (tugalex/__init__.py:124-125, 167-168) and the path construction (45-59). Every loader takes the file's lines instead.
- Line splitting: the regional file is split with `splitlines()`, the others with `split("\n")`. Which line breaks count is left to the caller that supplies the lines.
- The `__main__` demo (454-516), which only prints.
- Default arguments: `pos="NOUN"` and `region="lbx"` of `get_phonemes`, `get_syllables`, `get`, `get_wordlist` and `get_ipa_map` (236-320) are not modelled; every argument is passed explicitly.
- Aliasing of returned objects: `get_syllables` returns the stored list itself, and the cached `AO1990` and `possible_postags` are returned as the same dict on every call, so a caller that mutates them changes the lexicon. The model returns values, so no such mutation exists in it.
- Unicode: `lower`/`upper` change only letters whose case pair is 32 code points apart: ASCII and Latin-1 `À`..`Þ`/`à`..`þ`, not `×`/`÷`. `ß`, `ÿ`, `µ` and every other letter are left unchanged. Code-point order stands in for `sorted`. `strip` and `split()` use Python's whitespace set.
- `cached_property` memoisation of `possible_postags`, `AO1990`, `silent_p_words` and `voiced_u_words`. They are recomputed from the tables, which never change, so every call gives the same value.
- The key order of the dicts returned by `get_ipa_map` and `possible_postags`: their results are maps. The tag lists inside `possible_postags` keep their order.
- Agreement.NormalizeAo1990: indexing `[0]` fails on an empty list. The model requires non-empty lists, which every loaded table has (`Loaders.AoTableFacts`), so that failure cannot arise from loaded data.
- Agreement.NormalizeTokens and Agreement.ReverseTokens are stated for sentences whose words map to tokens. A word mapped to an empty spelling, which a row ending in a comma gives, loses a token (`Agreement.NormalizeEmptySpelling`); a spelling holding whitespace splits into several tokens, which the model does not state.
- Agreement.RoundTrip is stated for words whose first new spelling no other old spelling lists. A word whose first new spelling is shared comes back as the last entry, in table order, that lists it (`Agreement.RoundTripSharedMoves`), unless that entry is the word itself; the model does not state that case.
- Agreement.RoundTripBr carries the same restriction, on the Brazilian table.
- Agreement.RoundTripPt carries the same restriction on the Portuguese table, and is stated only for words the Brazilian table does not list: `AO1990` takes the Brazilian spelling for the others, which the Portuguese reverse table may not know (`Agreement.RoundTripPtOverridden`).
- Lookup.PostagsResolve assumes the homograph words are stored normalised and are not archaisms. The homograph loader normalises nothing.
- Lookup.GetIpaMapAgrees is stated for normalised words that are not archaisms. `get_ipa_map` does neither step.
