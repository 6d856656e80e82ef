/** The four table loaders of `TugaLexicon`, taking the lines of a data file
    instead of its path. Every loader drops the rows it cannot parse and lets
    a later row overwrite an earlier one with the same key; all but the
    agreement-table loader skip the first (header) line.

    Each loader is a `method` that walks the lines as the source does, proved
    equal to a fold over the parsed rows (`ArchaismTable`, `HomographTable`,
    `LangMapTable`, `AoTable`); what the tables hold is proved about those
    folds, through the generic last-write-wins map `Assoc`. */
module Loaders {
  import opened Wrappers
  import opened PyStr
  import opened PyDict

  /** `lines[1:]` */
  function DropHeader(lines: seq<string>): (r: seq<string>)
    ensures lines != [] ==> [lines[0]] + r == lines
    ensures lines == [] ==> r == []
  {
    if lines == [] then [] else lines[1..]
  }

  // ---------------------------------------------------------------
  // archaisms.csv: old_word,new_word,<rest>

  /** One row of the archaism table: quotes dropped, the first two comma-separated fields. */
  function ArchaismRow(line: string): (r: Option<(string, string)>)
    ensures r.Some? <==> Count(line, ',') >= 2
    ensures r.Some? ==> r.value.0 + "," + r.value.1 + "," <= RemoveChar(line, '"')
    ensures r.Some? ==> ',' !in r.value.0 && ',' !in r.value.1 && '"' !in r.value.0 && '"' !in r.value.1
  {
    var l := RemoveChar(line, '"');
    var parts := SplitN(l, ",", 2);
    CountBound(line, ',');
    CountRemoveChar(line, '"', ',');
    SplitNCount(l, ',', 2);
    if ',' !in line || |parts| != 3 then None
    else
      RowFields(l, parts);
      Some((parts[0], parts[1]))
  }

  /** The fields of a three-way split spell the quote-free line and keep no quote. */
  lemma RowFields(l: string, parts: seq<string>)
    requires '"' !in l
    requires parts == SplitN(l, ",", 2) && |parts| == 3
    ensures parts[0] + "," + parts[1] + "," + parts[2] == l
    ensures ',' !in parts[0] && ',' !in parts[1]
    ensures '"' !in parts[0] && '"' !in parts[1] && '"' !in parts[2]
  {
    JoinSplitN(l, ",", 2);
    JoinThree(parts, ",");
    SplitNPieces(l, ',', 2);
    forall i | 0 <= i < 3
      ensures '"' !in parts[i]
    {
      if '"' in parts[i] {
        JoinHolds(parts, ",", i, '"');
      }
    }
  }

  function ArchaismRows(rows: seq<string>): (r: seq<Option<(string, string)>>)
    ensures |r| == |rows|
  {
    seq(|rows|, i requires 0 <= i < |rows| => ArchaismRow(rows[i]))
  }

  /** `_load_archaisms` on the file's lines: old spelling to its replacement. */
  function ArchaismTable(lines: seq<string>): map<string, string>
  {
    Assoc(ArchaismRows(DropHeader(lines)))
  }

  method LoadArchaisms(lines: seq<string>) returns (data: map<string, string>)
    ensures data == ArchaismTable(lines)
  {
    data := map[];
    var rows := DropHeader(lines);
    for i := 0 to |rows|
      invariant data == Assoc(ArchaismRows(rows[..i]))
    {
      assert ArchaismRows(rows[..i + 1]) == ArchaismRows(rows[..i]) + [ArchaismRow(rows[i])];
      AssocSnoc(ArchaismRows(rows[..i]), ArchaismRow(rows[i]));
      var l := rows[i];
      if ',' !in l {
        continue;
      }
      l := RemoveChar(l, '"');
      var parts := SplitN(l, ",", 2);
      if |parts| != 3 {
        continue;
      }
      var oldWord, newWord := parts[0], parts[1];
      data := data[oldWord := newWord];
    }
    assert rows[..|rows|] == rows;
  }

  /** An old spelling is in the table exactly when some row after the header
      parses to it; the value is that of the last such row. */
  lemma ArchaismLastWins(lines: seq<string>, j: nat)
    requires 1 <= j < |lines| && ArchaismRow(lines[j]).Some?
    requires forall k :: j < k < |lines| && ArchaismRow(lines[k]).Some? ==> ArchaismRow(lines[k]).value.0 != ArchaismRow(lines[j]).value.0
    ensures ArchaismRow(lines[j]).value.0 in ArchaismTable(lines)
    ensures ArchaismTable(lines)[ArchaismRow(lines[j]).value.0] == ArchaismRow(lines[j]).value.1
  {
    var es := ArchaismRows(DropHeader(lines));
    forall k | j - 1 < k < |es| && es[k].Some?
      ensures es[k].value.0 != es[j - 1].value.0
    {
      assert es[k] == ArchaismRow(lines[k + 1]);
    }
    AssocLastWins(es, j - 1);
  }

  /** Keys of the archaism table all come from parsable rows after the header. */
  lemma ArchaismDomain(lines: seq<string>, w: string)
    ensures w in ArchaismTable(lines) <==>
      exists j :: 1 <= j < |lines| && ArchaismRow(lines[j]).Some? && ArchaismRow(lines[j]).value.0 == w
  {
    var es := ArchaismRows(DropHeader(lines));
    AssocDomain(es, w);
    ArchaismRowsShift(lines, w);
  }

  /** The parsed rows after the header are the rows of lines 1 onwards. */
  lemma ArchaismRowsShift(lines: seq<string>, w: string)
    ensures var es := ArchaismRows(DropHeader(lines));
      (exists j :: 0 <= j < |es| && es[j].Some? && es[j].value.0 == w) <==>
      (exists j :: 1 <= j < |lines| && ArchaismRow(lines[j]).Some? && ArchaismRow(lines[j]).value.0 == w)
  {
    var es := ArchaismRows(DropHeader(lines));
    if j :| 0 <= j < |es| && es[j].Some? && es[j].value.0 == w {
      assert ArchaismRow(lines[j + 1]) == es[j];
    }
    if j :| 1 <= j < |lines| && ArchaismRow(lines[j]).Some? && ArchaismRow(lines[j]).value.0 == w {
      assert es[j - 1] == ArchaismRow(lines[j]);
    }
  }

  // ---------------------------------------------------------------
  // heterophonic_homographs.csv: word,pos,ipa

  /** One row of the homograph table: quotes dropped, split at the first two commas. */
  function HomographRow(line: string): (r: Option<(string, string, string)>)
    ensures r.Some? <==> Count(line, ',') >= 2
    ensures r.Some? ==> r.value.0 + "," + r.value.1 + "," + r.value.2 == RemoveChar(line, '"')
    ensures r.Some? ==> ',' !in r.value.0 && ',' !in r.value.1
  {
    var l := RemoveChar(line, '"');
    var parts := SplitN(l, ",", 2);
    CountBound(line, ',');
    CountRemoveChar(line, '"', ',');
    SplitNCount(l, ',', 2);
    if ',' !in line || |parts| != 3 then None
    else
      RowFields(l, parts);
      Some((parts[0], parts[1], parts[2]))
  }

  function HomographRows(rows: seq<string>): (r: seq<Option<(string, string, string)>>)
    ensures |r| == |rows|
  {
    seq(|rows|, i requires 0 <= i < |rows| => HomographRow(rows[i]))
  }

  /** `data[w][p] = v`, creating `data[w] = {}` first when `w` is new. */
  function Put2<V>(data: map<string, Dict<V>>, w: string, p: string, v: V): (r: map<string, Dict<V>>)
    ensures r.Keys == data.Keys + {w}
  {
    data[w := (if w in data then data[w] else EmptyDict()).Put(p, v)]
  }

  function Homographs(es: seq<Option<(string, string, string)>>): map<string, Dict<string>>
  {
    if es == [] then map[]
    else
      var data := Homographs(es[..|es| - 1]);
      match es[|es| - 1]
      case None => data
      case Some(row) => Put2(data, row.0, row.1, row.2)
  }

  /** `_load_homographs` on the file's lines: word to (POS to IPA). */
  function HomographTable(lines: seq<string>): map<string, Dict<string>>
  {
    Homographs(HomographRows(DropHeader(lines)))
  }

  /** One more line for the fold. */
  lemma HomographRowsStep(rows: seq<string>, i: nat)
    requires i < |rows|
    ensures Homographs(HomographRows(rows[..i + 1])) ==
      match HomographRow(rows[i]) case None => Homographs(HomographRows(rows[..i]))
      case Some(row) => Put2(Homographs(HomographRows(rows[..i])), row.0, row.1, row.2)
  {
    assert HomographRows(rows[..i + 1])[..i] == HomographRows(rows[..i]);
  }

  method LoadHomographs(lines: seq<string>) returns (data: map<string, Dict<string>>)
    ensures data == HomographTable(lines)
  {
    data := map[];
    var rows := DropHeader(lines);
    for i := 0 to |rows|
      invariant data == Homographs(HomographRows(rows[..i]))
    {
      HomographRowsStep(rows, i);
      var l := rows[i];
      if ',' !in l {
        continue;
      }
      l := RemoveChar(l, '"');
      var parts := SplitN(l, ",", 2);
      if |parts| != 3 {
        continue;
      }
      var word, pos, ipa := parts[0], parts[1], parts[2];
      if word !in data {
        data := data[word := EmptyDict()];
      }
      data := data[word := data[word].Put(pos, ipa)];
    }
    assert rows[..|rows|] == rows;
  }

  /** The two-level dict `h` holds exactly the assignments of the one-level `flat`,
      every inner dict is well formed and none is empty. */
  ghost predicate Flattens2<V>(h: map<string, Dict<V>>, flat: map<(string, string), V>)
  {
    && (forall w, p :: (w in h && p in h[w].items) <==> (w, p) in flat)
    && (forall w, p :: w in h && p in h[w].items ==> h[w].items[p] == flat[(w, p)])
    && (forall w :: w in h ==> h[w].Valid() && h[w].keys != [])
  }

  lemma Put2Flattens<V>(h: map<string, Dict<V>>, flat: map<(string, string), V>, w: string, p: string, v: V)
    requires Flattens2(h, flat)
    ensures Flattens2(Put2(h, w, p, v), flat[(w, p) := v])
  {
    var h' := Put2(h, w, p, v);
    var flat' := flat[(w, p) := v];
    forall u: string, q: string
      ensures (u in h' && q in h'[u].items) <==> (u, q) in flat'
      ensures u in h' && q in h'[u].items ==> h'[u].items[q] == flat'[(u, q)]
    {
      if u != w {
        assert u in h' <==> u in h;
      }
    }
    forall u | u in h'
      ensures h'[u].Valid() && h'[u].keys != []
    {
    }
  }

  function HomographFlat(es: seq<Option<(string, string, string)>>): (r: seq<Option<((string, string), string)>>)
    ensures |r| == |es|
  {
    seq(|es|, i requires 0 <= i < |es| => match es[i] case None => None case Some(row) => Some(((row.0, row.1), row.2)))
  }

  /** The homograph table is the last-write-wins map of (word, POS) to IPA over the rows. */
  lemma {:induction false} HomographsFlatten(es: seq<Option<(string, string, string)>>)
    ensures Flattens2(Homographs(es), Assoc(HomographFlat(es)))
  {
    if es != [] {
      var init := es[..|es| - 1];
      HomographsFlatten(init);
      assert HomographFlat(es) == HomographFlat(init) + [HomographFlat(es)[|es| - 1]];
      AssocSnoc(HomographFlat(init), HomographFlat(es)[|es| - 1]);
      match es[|es| - 1]
      case None =>
      case Some(row) =>
        Put2Flattens(Homographs(init), Assoc(HomographFlat(init)), row.0, row.1, row.2);
    }
  }

  /** A homograph row after the header that no later row overrides for the same
      word and POS gives the stored IPA. */
  lemma HomographLastWins(lines: seq<string>, j: nat)
    requires 1 <= j < |lines| && HomographRow(lines[j]).Some?
    requires forall k :: j < k < |lines| && HomographRow(lines[k]).Some? ==>
      (HomographRow(lines[k]).value.0, HomographRow(lines[k]).value.1) != (HomographRow(lines[j]).value.0, HomographRow(lines[j]).value.1)
    ensures var row := HomographRow(lines[j]).value; var h := HomographTable(lines);
      row.0 in h && row.1 in h[row.0].items && h[row.0].items[row.1] == row.2
  {
    var es := HomographRows(DropHeader(lines));
    var flat := HomographFlat(es);
    forall k | j - 1 < k < |flat| && flat[k].Some?
      ensures flat[k].value.0 != flat[j - 1].value.0
    {
      assert es[k] == HomographRow(lines[k + 1]);
    }
    assert es[j - 1] == HomographRow(lines[j]);
    AssocLastWins(flat, j - 1);
    HomographsFlatten(es);
  }

  // ---------------------------------------------------------------
  // regional_dict.csv: _,word,pos,_,phonemes,syl,region

  /** One parsed row of the regional dataset, already normalised. */
  datatype Entry = Entry(word: string, pos: string, phonemes: string, syllables: seq<string>, region: string)

  /** What every parsed row satisfies. */
  predicate EntryOk(e: Entry)
  {
    && Normalized(e.word)
    && Normalized(e.region)
    && Upper(e.pos) == e.pos
    && '|' !in e.phonemes
    && (forall s :: s in e.syllables ==> ' ' !in s && '|' !in s)
  }

  /** The lowercased line cut at its first six commas. */
  function Fields(line: string): (r: seq<string>)
    ensures 1 <= |r| <= 7
  {
    SplitN(Lower(line), ",", 6)
  }

  /** One row of the regional dataset: at least seven comma-separated fields. */
  function LangMapRow(line: string): (r: Option<Entry>)
    ensures r.Some? <==> Count(line, ',') >= 6
    ensures r.Some? ==> EntryOk(r.value)
  {
    var parts := Fields(line);
    CountLower(line, ',');
    SplitNCount(Lower(line), ',', 6);
    FieldsLower(line);
    if |parts| < 7 then None
    else
      var e := Entry(Lower(Strip(parts[1])), Upper(parts[2]), Strip(Replace(parts[4], '|', '\U{B7}')),
                     Split(Replace(Strip(parts[5]), ' ', '|'), "|"), Strip(parts[6]));
      EntryFacts(parts, e);
      Some(e)
  }

  /** A parsed row's fields: the lower-cased line is the seven fields joined by
      commas, the first six hold no comma (the seventh keeps the rest of the
      line), and the entry is read from fields 1, 2, 4, 5 and 6. */
  lemma LangMapRowParts(line: string)
    ensures LangMapRow(line).Some? ==> var e := LangMapRow(line).value; var f := Fields(line);
      && |f| == 7 && Join(f, ",") == Lower(line) && (forall i :: 0 <= i < 6 ==> ',' !in f[i])
      && e.word == Lower(Strip(f[1])) && e.pos == Upper(f[2])
      && e.phonemes == Strip(Replace(f[4], '|', '\U{B7}')) && e.region == Strip(f[6])
      && |e.syllables| >= 1 && Join(e.syllables, "|") == Replace(Strip(f[5]), ' ', '|')
  {
    var parts := Fields(line);
    JoinSplitN(Lower(line), ",", 6);
    SplitNPieces(Lower(line), ',', 6);
    if |parts| == 7 {
      FieldsLower(line);
      EntryFacts(parts, LangMapRow(line).value);
    }
  }

  /** No field of a lowercased line holds an upper-case letter. */
  lemma FieldsLower(line: string)
    ensures forall i, c :: 0 <= i < |Fields(line)| && c in Fields(line)[i] ==> !IsUpperLetter(c)
  {
    var parts := Fields(line);
    JoinSplitN(Lower(line), ",", 6);
    forall i, c | 0 <= i < |parts| && c in parts[i]
      ensures !IsUpperLetter(c)
    {
      JoinHolds(parts, ",", i, c);
      LowerNoUpper(line, c);
    }
  }

  lemma EntryFacts(parts: seq<string>, e: Entry)
    requires |parts| == 7
    requires e == Entry(Lower(Strip(parts[1])), Upper(parts[2]), Strip(Replace(parts[4], '|', '\U{B7}')),
                        Split(Replace(Strip(parts[5]), ' ', '|'), "|"), Strip(parts[6]))
    requires forall c :: c in parts[6] ==> !IsUpperLetter(c)
    ensures EntryOk(e)
    ensures Join(e.syllables, "|") == Replace(Strip(parts[5]), ' ', '|')
  {
    NormalizeIdempotent(parts[1]);
    LowerFixed(parts[6]);
    StripCase(parts[6]);
    StripIdle(Strip(parts[6]));
    UpperIdempotent(parts[2]);
    ReplaceRemoves(parts[4], '|', '\U{B7}');
    var flat := Replace(Strip(parts[5]), ' ', '|');
    ReplaceRemoves(Strip(parts[5]), ' ', '|');
    SplitPieces(flat, '|');
    JoinSplit(flat, "|");
    forall s | s in e.syllables
      ensures ' ' !in s && '|' !in s
    {
      var i :| 0 <= i < |e.syllables| && e.syllables[i] == s;
      if ' ' in s {
        JoinHolds(e.syllables, "|", i, ' ');
      }
    }
  }

  function LangMapRows(rows: seq<string>): (r: seq<Option<Entry>>)
    ensures |r| == |rows|
  {
    seq(|rows|, i requires 0 <= i < |rows| => LangMapRow(rows[i]))
  }

  /** region -> word -> POS -> phonemes */
  type IpaMap = map<string, map<string, Dict<string>>>
  /** region -> word -> syllables */
  type SyllableMap = map<string, map<string, seq<string>>>

  /** The three structures `_load_lang_map` returns. */
  datatype LangMap = LangMap(ipa: IpaMap, syllables: SyllableMap, regions: set<string>)

  function EmptyLangMap(): LangMap
  {
    LangMap(map[], map[], {})
  }

  /** The updates one parsed row makes. */
  function AddEntry(t: LangMap, e: Entry): LangMap
  {
    var words := if e.region in t.ipa then t.ipa[e.region] else map[];
    var syls := if e.region in t.syllables then t.syllables[e.region] else map[];
    LangMap(t.ipa[e.region := Put2(words, e.word, e.pos, e.phonemes)],
            t.syllables[e.region := syls[e.word := e.syllables]],
            t.regions + {e.region})
  }

  function LangMapOf(es: seq<Option<Entry>>): LangMap
  {
    if es == [] then EmptyLangMap()
    else
      var t := LangMapOf(es[..|es| - 1]);
      match es[|es| - 1]
      case None => t
      case Some(e) => AddEntry(t, e)
  }

  /** Unfolds `LangMapRow` for the loop of `LoadLangMap`. */
  lemma LangMapRowFields(line: string)
    ensures var parts := Fields(line);
      if |parts| < 7 then LangMapRow(line) == None
      else LangMapRow(line) == Some(Entry(Lower(Strip(parts[1])), Upper(parts[2]), Strip(Replace(parts[4], '|', '\U{B7}')),
                                        Split(Replace(Strip(parts[5]), ' ', '|'), "|"), Strip(parts[6])))
  {
  }

  /** One more line for the fold. */
  lemma LangMapRowsStep(rows: seq<string>, i: nat)
    requires i < |rows|
    ensures LangMapOf(LangMapRows(rows[..i + 1])) ==
      match LangMapRow(rows[i]) case None => LangMapOf(LangMapRows(rows[..i])) case Some(e) => AddEntry(LangMapOf(LangMapRows(rows[..i])), e)
  {
    assert LangMapRows(rows[..i + 1])[..i] == LangMapRows(rows[..i]);
  }

  /** `_load_lang_map` on the file's lines. */
  function LangMapTable(lines: seq<string>): LangMap
  {
    if lines == [] then EmptyLangMap() else LangMapOf(LangMapRows(lines[1..]))
  }

  method LoadLangMap(lines: seq<string>) returns (ipa: IpaMap, syllables: SyllableMap, regions: set<string>)
    ensures LangMap(ipa, syllables, regions) == LangMapTable(lines)
  {
    ipa, syllables, regions := map[], map[], {};
    if lines == [] {
      return;
    }
    var rows := lines[1..];
    for i := 0 to |rows|
      invariant LangMap(ipa, syllables, regions) == LangMapOf(LangMapRows(rows[..i]))
    {
      LangMapRowsStep(rows, i);
      var parts := SplitN(Lower(rows[i]), ",", 6);
      assert parts == Fields(rows[i]);
      if |parts| < 7 {
        continue;
      }
      var word, pos, phonemes, syl, region := parts[1], parts[2], parts[4], parts[5], parts[6];
      phonemes := Strip(Replace(phonemes, '|', '\U{B7}'));
      word := Lower(Strip(word));
      region := Strip(region);
      LangMapRowFields(rows[i]);
      var sylls := Split(Replace(Strip(syl), ' ', '|'), "|");
      ipa, syllables, regions := StoreRow(ipa, syllables, regions, word, pos, phonemes, sylls, region);
    }
    assert rows[..|rows|] == rows;
  }

  /** The stores the loop of `_load_lang_map` makes for one parsed row. */
  method StoreRow(ipa0: IpaMap, syllables0: SyllableMap, regions0: set<string>,
                  word: string, pos: string, phonemes: string, sylls: seq<string>, region: string)
    returns (ipa: IpaMap, syllables: SyllableMap, regions: set<string>)
    ensures LangMap(ipa, syllables, regions) ==
      AddEntry(LangMap(ipa0, syllables0, regions0), Entry(word, Upper(pos), phonemes, sylls, region))
  {
    ghost var e := Entry(word, Upper(pos), phonemes, sylls, region);
    ghost var t := LangMap(ipa0, syllables0, regions0);
    ipa, syllables, regions := ipa0, syllables0, regions0;
    regions := regions + {region};
    if region !in syllables {
      syllables := syllables[region := map[]];
    }
    if region !in ipa {
      ipa := ipa[region := map[]];
    }
    ghost var words := if region in t.ipa then t.ipa[region] else map[];
    assert ipa == t.ipa[region := words];
    if word !in ipa[region] {
      ipa := ipa[region := ipa[region][word := EmptyDict()]];
    }
    ghost var tags := ipa[region][word];
    assert ipa[region][word := tags.Put(Upper(pos), phonemes)] == Put2(words, word, Upper(pos), phonemes);
    syllables := syllables[region := syllables[region][word := sylls]];
    ipa := ipa[region := ipa[region][word := ipa[region][word].Put(Upper(pos), phonemes)]];
    assert regions == AddEntry(t, e).regions;
    assert syllables == AddEntry(t, e).syllables;
    assert ipa == AddEntry(t, e).ipa;
  }

  /** The region set, the regions of `ipa` and of `syllables` coincide, and so do
      the words of `ipa[r]` and `syllables[r]` for every region. */
  ghost predicate Consistent(t: LangMap)
  {
    && t.ipa.Keys == t.regions
    && t.syllables.Keys == t.regions
    && (forall r :: r in t.ipa ==> t.ipa[r].Keys == t.syllables[r].Keys)
  }

  /** What the stored values look like: normalised words and regions, upper-case
      POS tags without `'|'` in the phonemes, clean syllables. */
  ghost predicate WellFormed(t: LangMap)
  {
    && (forall r :: r in t.regions ==> Normalized(r))
    && WordsNormalized(t.ipa)
    && TagsClean(t.ipa)
    && SyllablesClean(t.syllables)
  }

  ghost predicate WordsNormalized(ipa: IpaMap)
  {
    forall r, w :: r in ipa && w in ipa[r] ==> Normalized(w)
  }

  ghost predicate TagsClean(ipa: IpaMap)
  {
    forall r, w, p :: r in ipa && w in ipa[r] && p in ipa[r][w].items ==>
      Upper(p) == p && '|' !in ipa[r][w].items[p]
  }

  ghost predicate SyllablesClean(syllables: SyllableMap)
  {
    forall r, w, s :: r in syllables && w in syllables[r] && s in syllables[r][w] ==> ' ' !in s && '|' !in s
  }

  lemma AddEntryConsistent(t: LangMap, e: Entry)
    requires Consistent(t)
    ensures Consistent(AddEntry(t, e))
  {
  }

  lemma AddEntryWords(t: LangMap, e: Entry)
    requires WordsNormalized(t.ipa) && Normalized(e.word)
    ensures WordsNormalized(AddEntry(t, e).ipa)
  {
    var ipa': IpaMap := AddEntry(t, e).ipa;
    forall r: string, w: string | r in ipa' && w in ipa'[r]
      ensures Normalized(w)
    {
      if r == e.region && w != e.word {
        assert r in t.ipa && w in t.ipa[r];
      }
    }
  }

  lemma AddEntryTags(t: LangMap, e: Entry)
    requires TagsClean(t.ipa) && Upper(e.pos) == e.pos && '|' !in e.phonemes
    ensures TagsClean(AddEntry(t, e).ipa)
  {
    var ipa': IpaMap := AddEntry(t, e).ipa;
    forall r: string, w: string, p: string | r in ipa' && w in ipa'[r] && p in ipa'[r][w].items
      ensures Upper(p) == p && '|' !in ipa'[r][w].items[p]
    {
      if r == e.region && w == e.word && p == e.pos {
      } else if r == e.region && w == e.word {
        assert r in t.ipa && w in t.ipa[r] && p in t.ipa[r][w].items;
      } else if r == e.region {
        assert r in t.ipa && w in t.ipa[r];
      }
    }
  }

  lemma AddEntrySyllables(t: LangMap, e: Entry)
    requires SyllablesClean(t.syllables)
    requires forall s :: s in e.syllables ==> ' ' !in s && '|' !in s
    ensures SyllablesClean(AddEntry(t, e).syllables)
  {
    var syl': SyllableMap := AddEntry(t, e).syllables;
    forall r: string, w: string, s: string | r in syl' && w in syl'[r] && s in syl'[r][w]
      ensures ' ' !in s && '|' !in s
    {
      if r == e.region && w != e.word {
        assert r in t.syllables && w in t.syllables[r];
      }
    }
  }

  lemma AddEntryKeeps(t: LangMap, e: Entry)
    requires Consistent(t) && WellFormed(t) && EntryOk(e)
    ensures Consistent(AddEntry(t, e)) && WellFormed(AddEntry(t, e))
  {
    AddEntryConsistent(t, e);
    AddEntryWords(t, e);
    AddEntryTags(t, e);
    AddEntrySyllables(t, e);
  }

  /** Parsed rows only ever produce a consistent, well-formed lang map. */
  lemma {:induction false} LangMapOfKeeps(es: seq<Option<Entry>>)
    requires forall i :: 0 <= i < |es| && es[i].Some? ==> EntryOk(es[i].value)
    ensures Consistent(LangMapOf(es)) && WellFormed(LangMapOf(es))
  {
    if es != [] {
      LangMapOfKeeps(es[..|es| - 1]);
      if es[|es| - 1].Some? {
        AddEntryKeeps(LangMapOf(es[..|es| - 1]), es[|es| - 1].value);
      }
    }
  }

  /** After `_load_lang_map` the three structures agree and every stored value is clean. */
  lemma LangMapTableKeeps(lines: seq<string>)
    ensures Consistent(LangMapTable(lines)) && WellFormed(LangMapTable(lines))
  {
    if lines != [] {
      LangMapOfKeeps(LangMapRows(lines[1..]));
    }
  }

  lemma LangMapTableClean(lines: seq<string>)
    ensures SyllablesClean(LangMapTable(lines).syllables)
  {
    LangMapTableKeeps(lines);
  }

  /** A file without any parsable row after the header yields three empty structures. */
  lemma {:induction false} LangMapOfEmpty(es: seq<Option<Entry>>)
    requires forall i :: 0 <= i < |es| ==> es[i].None?
    ensures LangMapOf(es) == EmptyLangMap()
  {
    if es != [] {
      LangMapOfEmpty(es[..|es| - 1]);
    }
  }

  lemma LangMapTableEmpty(lines: seq<string>)
    requires forall i :: 1 <= i < |lines| ==> Count(lines[i], ',') < 6
    ensures LangMapTable(lines) == EmptyLangMap()
  {
    if lines != [] {
      var es := LangMapRows(lines[1..]);
      forall i | 0 <= i < |es|
        ensures es[i].None?
      {
        assert es[i] == LangMapRow(lines[i + 1]);
      }
      LangMapOfEmpty(es);
    }
  }

  // The lang map read as two last-write-wins maps over the rows.

  function IpaFlat(es: seq<Option<Entry>>): (r: seq<Option<((string, string, string), string)>>)
    ensures |r| == |es|
  {
    seq(|es|, i requires 0 <= i < |es| => match es[i] case None => None case Some(e) => Some(((e.region, e.word, e.pos), e.phonemes)))
  }

  function SyllableFlat(es: seq<Option<Entry>>): (r: seq<Option<((string, string), seq<string>)>>)
    ensures |r| == |es|
  {
    seq(|es|, i requires 0 <= i < |es| => match es[i] case None => None case Some(e) => Some(((e.region, e.word), e.syllables)))
  }

  /** `ipa` holds exactly the assignments of `flat`, keyed by (region, word, POS). */
  ghost predicate IpaFlattens(ipa: IpaMap, flat: map<(string, string, string), string>)
  {
    && (forall r, w, p :: (r in ipa && w in ipa[r] && p in ipa[r][w].items) <==> (r, w, p) in flat)
    && (forall r, w, p :: r in ipa && w in ipa[r] && p in ipa[r][w].items ==> ipa[r][w].items[p] == flat[(r, w, p)])
    && (forall r, w :: r in ipa && w in ipa[r] ==> ipa[r][w].Valid() && ipa[r][w].keys != [])
  }

  /** `syllables` holds exactly the assignments of `flat`, keyed by (region, word). */
  ghost predicate SyllablesFlatten(syllables: SyllableMap, flat: map<(string, string), seq<string>>)
  {
    && (forall r, w :: (r in syllables && w in syllables[r]) <==> (r, w) in flat)
    && (forall r, w :: r in syllables && w in syllables[r] ==> syllables[r][w] == flat[(r, w)])
  }

  lemma AddEntryIpa(t: LangMap, e: Entry, fi: map<(string, string, string), string>)
    requires IpaFlattens(t.ipa, fi)
    ensures IpaFlattens(AddEntry(t, e).ipa, fi[(e.region, e.word, e.pos) := e.phonemes])
  {
    var ipa': IpaMap := AddEntry(t, e).ipa;
    var fi' := fi[(e.region, e.word, e.pos) := e.phonemes];
    forall r: string, w: string, p: string
      ensures (r in ipa' && w in ipa'[r] && p in ipa'[r][w].items) <==> (r, w, p) in fi'
      ensures r in ipa' && w in ipa'[r] && p in ipa'[r][w].items ==> ipa'[r][w].items[p] == fi'[(r, w, p)]
    {
      if r == e.region && w == e.word {
      } else if r == e.region {
        if r in t.ipa {
          assert w in ipa'[r] <==> w in t.ipa[r];
        } else {
          assert ipa'[r].Keys == {e.word};
        }
      }
    }
    forall r, w | r in ipa' && w in ipa'[r]
      ensures ipa'[r][w].Valid() && ipa'[r][w].keys != []
    {
    }
  }

  lemma AddEntrySyllableFlat(t: LangMap, e: Entry, fs: map<(string, string), seq<string>>)
    requires SyllablesFlatten(t.syllables, fs)
    ensures SyllablesFlatten(AddEntry(t, e).syllables, fs[(e.region, e.word) := e.syllables])
  {
  }

  /** The lang map built from the rows is the last-write-wins reading of them:
      (region, word, POS) to phonemes and (region, word) to syllables; the
      structures also agree with each other. */
  lemma {:induction false} LangMapOfFlattens(es: seq<Option<Entry>>)
    ensures IpaFlattens(LangMapOf(es).ipa, Assoc(IpaFlat(es)))
    ensures SyllablesFlatten(LangMapOf(es).syllables, Assoc(SyllableFlat(es)))
  {
    if es != [] {
      var init := es[..|es| - 1];
      LangMapOfFlattens(init);
      assert IpaFlat(es) == IpaFlat(init) + [IpaFlat(es)[|es| - 1]];
      assert SyllableFlat(es) == SyllableFlat(init) + [SyllableFlat(es)[|es| - 1]];
      AssocSnoc(IpaFlat(init), IpaFlat(es)[|es| - 1]);
      AssocSnoc(SyllableFlat(init), SyllableFlat(es)[|es| - 1]);
      if es[|es| - 1].Some? {
        AddEntryIpa(LangMapOf(init), es[|es| - 1].value, Assoc(IpaFlat(init)));
        AddEntrySyllableFlat(LangMapOf(init), es[|es| - 1].value, Assoc(SyllableFlat(init)));
      }
    }
  }

  /** The phonemes of the last row naming a (region, word, POS) are the ones stored. */
  lemma LangMapLastWins(es: seq<Option<Entry>>, j: nat)
    requires j < |es| && es[j].Some?
    requires forall k :: j < k < |es| && es[k].Some? ==>
      (es[k].value.region, es[k].value.word, es[k].value.pos) != (es[j].value.region, es[j].value.word, es[j].value.pos)
    ensures var e := es[j].value; var t := LangMapOf(es);
      e.region in t.ipa && e.word in t.ipa[e.region] && e.pos in t.ipa[e.region][e.word].items
      && t.ipa[e.region][e.word].items[e.pos] == e.phonemes
  {
    var flat := IpaFlat(es);
    AssocLastWins(flat, j);
    LangMapOfFlattens(es);
  }

  /** The syllables of the last row naming a (region, word) are the ones stored. */
  lemma SyllablesLastWins(es: seq<Option<Entry>>, j: nat)
    requires j < |es| && es[j].Some?
    requires forall k :: j < k < |es| && es[k].Some? ==>
      (es[k].value.region, es[k].value.word) != (es[j].value.region, es[j].value.word)
    ensures var e := es[j].value; var t := LangMapOf(es);
      e.region in t.syllables && e.word in t.syllables[e.region] && t.syllables[e.region][e.word] == e.syllables
  {
    var flat := SyllableFlat(es);
    AssocLastWins(flat, j);
    LangMapOfFlattens(es);
  }

  /** A (region, word, POS) is in `ipa` only if some parsed row names it. */
  lemma LangMapDomain(es: seq<Option<Entry>>, r: string, w: string, p: string)
    ensures (var t := LangMapOf(es); r in t.ipa && w in t.ipa[r] && p in t.ipa[r][w].items) <==>
      exists j :: 0 <= j < |es| && es[j].Some? && es[j].value.region == r && es[j].value.word == w && es[j].value.pos == p
  {
    var flat := IpaFlat(es);
    LangMapOfFlattens(es);
    AssocDomain(flat, (r, w, p));
    if exists j :: 0 <= j < |es| && es[j].Some? && es[j].value.region == r && es[j].value.word == w && es[j].value.pos == p {
      var j :| 0 <= j < |es| && es[j].Some? && es[j].value.region == r && es[j].value.word == w && es[j].value.pos == p;
      assert flat[j].Some? && flat[j].value.0 == (r, w, p);
    }
  }

  // ---------------------------------------------------------------
  // acordo_ortografico_pt_*.csv: old_word,new_word[, new_word...]

  /** One row of an agreement table: quotes dropped, cut at the first comma,
      the rest split at every ", ". */
  function AoRow(line: string): (r: Option<(string, seq<string>)>)
    ensures r.Some? <==> ',' in line
    ensures r.Some? ==> ',' !in r.value.0 && |r.value.1| >= 1
    ensures r.Some? ==> r.value.0 + "," + Join(r.value.1, ", ") == RemoveChar(line, '"')
    ensures r.Some? ==> forall n :: n in r.value.1 ==> !Contains(n, ", ")
  {
    var l := RemoveChar(line, '"');
    var parts := SplitN(l, ",", 1);
    CountBound(line, ',');
    CountRemoveChar(line, '"', ',');
    SplitNCount(l, ',', 1);
    CountBound(l, ',');
    if ',' !in line || |parts| != 2 then None
    else
      JoinSplitN(l, ",", 1);
      JoinTwo(parts, ",");
      SplitNPieces(l, ',', 1);
      JoinSplit(parts[1], ", ");
      SplitNoSep(parts[1], ", ");
      Some((parts[0], Split(parts[1], ", ")))
  }

  function AoRows(rows: seq<string>): (r: seq<Option<(string, seq<string>)>>)
    ensures |r| == |rows|
  {
    seq(|rows|, i requires 0 <= i < |rows| => AoRow(rows[i]))
  }

  /** `_load_ao` on the file's lines (no header is skipped): old spelling to new spellings. */
  function AoTable(lines: seq<string>): Dict<seq<string>>
  {
    DictOf(AoRows(lines))
  }

  method LoadAo(lines: seq<string>) returns (ao: Dict<seq<string>>)
    ensures ao == AoTable(lines)
  {
    ao := EmptyDict();
    for i := 0 to |lines|
      invariant ao == DictOf(AoRows(lines[..i]))
    {
      assert AoRows(lines[..i + 1]) == AoRows(lines[..i]) + [AoRow(lines[i])];
      DictOfSnoc(AoRows(lines[..i]), AoRow(lines[i]));
      var l := lines[i];
      if ',' !in l {
        continue;
      }
      l := RemoveChar(l, '"');
      var parts := SplitN(l, ",", 1);
      if |parts| != 2 {
        continue;
      }
      var oldWord, newWords := parts[0], parts[1];
      ao := ao.Put(oldWord, Split(newWords, ", "));
    }
    assert lines[..|lines|] == lines;
  }

  /** An agreement table is a well-formed dict whose every old spelling came from
      a row and lists at least one new spelling; the last row for a spelling wins. */
  lemma AoTableFacts(lines: seq<string>, w: string)
    ensures AoTable(lines).Valid()
    ensures w in AoTable(lines).items ==> |AoTable(lines).items[w]| >= 1
    ensures w in AoTable(lines).items <==> exists j :: 0 <= j < |lines| && AoRow(lines[j]).Some? && AoRow(lines[j]).value.0 == w
  {
    var es := AoRows(lines);
    DictOfAssoc(es);
    AssocDomain(es, w);
    if w in AoTable(lines).items {
      AssocValues(es, w);
    }
    if exists j :: 0 <= j < |lines| && AoRow(lines[j]).Some? && AoRow(lines[j]).value.0 == w {
      var j :| 0 <= j < |lines| && AoRow(lines[j]).Some? && AoRow(lines[j]).value.0 == w;
      assert es[j] == AoRow(lines[j]);
    }
  }

  /** The last row for an old spelling decides its list of new spellings. */
  lemma AoLastWins(lines: seq<string>, j: nat)
    requires j < |lines| && AoRow(lines[j]).Some?
    requires forall k :: j < k < |lines| && AoRow(lines[k]).Some? ==> AoRow(lines[k]).value.0 != AoRow(lines[j]).value.0
    ensures var row := AoRow(lines[j]).value;
      row.0 in AoTable(lines).items && AoTable(lines).items[row.0] == row.1
  {
    var es := AoRows(lines);
    DictOfAssoc(es);
    AssocLastWins(es, j);
  }
}
