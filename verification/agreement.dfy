/** The views of `TugaLexicon` built on the orthographic-agreement tables
    (old spelling -> new spellings) and the sentence rewriters that use them.
    A table is a `Dict` because the reverse tables depend on its key order. */
module Agreement {
  import opened Wrappers
  import opened PyStr
  import opened PyDict

  type AoDict = Dict<seq<string>>

  /** Every old spelling lists at least one new spelling, as `_load_ao` guarantees. */
  predicate NonEmptyLists(ao: AoDict)
  {
    forall k :: k in ao.items ==> |ao.items[k]| >= 1
  }

  /** `AO1990`: `{**ao_pt, **ao_br}`. */
  function Ao1990(pt: AoDict, br: AoDict): (r: AoDict)
    requires pt.Valid() && br.Valid()
    ensures r.Valid()
    ensures forall k :: k in r.items <==> k in pt.items || k in br.items
    ensures forall k :: k in br.items ==> r.items[k] == br.items[k]
    ensures forall k :: k in pt.items && k !in br.items ==> r.items[k] == pt.items[k]
    ensures r.keys == pt.keys + Unseen(br.keys, pt.items)
    ensures NonEmptyLists(pt) && NonEmptyLists(br) ==> NonEmptyLists(r)
  {
    Merge(pt, br)
  }

  const Clusters: seq<string> := ["mpc", "mp\U{E7}", "mpt"]

  /** Old spellings that hold cluster `c` while some new spelling of theirs does not. */
  predicate DropsCluster(ao: AoDict, oldWord: string, c: string)
  {
    oldWord in ao.items && Contains(oldWord, c) && exists n :: n in ao.items[oldWord] && !Contains(n, c)
  }

  /** `silent_p_words` over the merged table. */
  function SilentPWords(ao: AoDict): (r: set<string>)
    ensures forall w :: w in r ==> w in ao.items && Contains(w, "mp")
    ensures forall w :: w in r <==> exists i :: 0 <= i < |Clusters| && DropsCluster(ao, w, Clusters[i])
  {
    var r := set oldWord, i | oldWord in ao.items && 0 <= i < |Clusters| && DropsCluster(ao, oldWord, Clusters[i]) :: oldWord;
    forall w | w in r
      ensures Contains(w, "mp")
    {
      var i :| 0 <= i < |Clusters| && DropsCluster(ao, w, Clusters[i]);
      ContainsPrefix(w, Clusters[i], 2);
      assert Clusters[i][..2] == "mp";
    }
    r
  }

  /** `voiced_u_words`: the new spellings of the Brazilian entries whose old spelling has a trema.
      The trema is tested on the old spelling only; the new spellings returned
      usually have none, since the reform dropped it. */
  function VoicedUWords(br: AoDict): (r: set<string>)
    ensures forall n :: n in r <==> exists oldWord :: oldWord in br.items && '\U{FC}' in oldWord && n in br.items[oldWord]
  {
    set oldWord, n | oldWord in br.items && '\U{FC}' in oldWord && n in br.items[oldWord] :: n
  }

  // ---------------------------------------------------------------
  // normalize_ao1900

  /** `AO1990.get(w, [w])[0]` */
  function Forward(ao: AoDict, w: string): string
    requires NonEmptyLists(ao)
  {
    if w in ao.items then ao.items[w][0] else w
  }

  function MapTokens(ao: AoDict, ws: seq<string>): (r: seq<string>)
    requires NonEmptyLists(ao)
    ensures |r| == |ws|
  {
    seq(|ws|, i requires 0 <= i < |ws| => Forward(ao, ws[i]))
  }

  /** `normalize_ao1900(sentence)`: every whitespace-separated token replaced by its
      first new spelling, joined with single spaces. */
  function NormalizeAo1990(ao: AoDict, sentence: string): (r: string)
    requires NonEmptyLists(ao)
  {
    Join(MapTokens(ao, Words(sentence)), " ")
  }

  /** When the sentence's words that the table lists have tokens as first new
      spellings, the output has exactly the input's tokens, each in the table
      turned into its first new spelling and every other kept. */
  lemma NormalizeTokens(ao: AoDict, sentence: string)
    requires NonEmptyLists(ao)
    requires forall w :: w in Words(sentence) && w in ao.items ==> IsToken(ao.items[w][0])
    ensures var ws := Words(sentence); var out := Words(NormalizeAo1990(ao, sentence));
      && |out| == |ws|
      && (forall i :: 0 <= i < |ws| && ws[i] in ao.items ==> out[i] == ao.items[ws[i]][0])
      && (forall i :: 0 <= i < |ws| && ws[i] !in ao.items ==> out[i] == ws[i])
  {
    var ws := Words(sentence);
    var ts := MapTokens(ao, ws);
    forall i | 0 <= i < |ts|
      ensures IsToken(ts[i])
    {
      assert ws[i] in Words(sentence);
    }
    WordsJoin(ts);
  }

  /** An empty new spelling (a row ending in a comma) makes the output lose a token. */
  lemma NormalizeEmptySpelling()
    ensures var ao := Dict(["ab"], map["ab" := [""]]);
      NonEmptyLists(ao) && NormalizeAo1990(ao, "ab cd") == " cd" && |Words(" cd")| == 1 && |Words("ab cd")| == 2
  {
    var ao := Dict(["ab"], map["ab" := [""]]);
    TwoWords();
    assert MapTokens(ao, ["ab", "cd"]) == ["", "cd"];
    assert Join(["", "cd"], " ") == " cd" by {
      assert ["", "cd"][1..] == ["cd"];
    }
    OneWord();
  }

  lemma TwoWords()
    ensures Words("ab cd") == ["ab", "cd"]
  {
    assert Join(["ab", "cd"], " ") == "ab cd" by {
      assert ["ab", "cd"][1..] == ["cd"];
    }
    assert IsToken("ab") && IsToken("cd");
    WordsJoin(["ab", "cd"]);
  }

  lemma OneWord()
    ensures Words(" cd") == ["cd"]
  {
    assert IsToken("cd");
    WordsSpace("cd");
    WordsJoin(["cd"]);
  }

  // ---------------------------------------------------------------
  // reverse_ao1900_pt / reverse_ao1900_br

  /** `reverse[n] = oldWord` for each new spelling `n` of `oldWord`, in list order. */
  function Pairs(oldWord: string, news: seq<string>): (r: seq<Option<(string, string)>>)
    ensures |r| == |news|
  {
    seq(|news|, j requires 0 <= j < |news| => Some((news[j], oldWord)))
  }

  /** The assignments of the nested loop, for the old spellings `ks` in order. */
  function ReversePairs(ao: AoDict, ks: seq<string>): seq<Option<(string, string)>>
    requires forall k :: k in ks ==> k in ao.items
  {
    if ks == [] then []
    else ReversePairs(ao, ks[..|ks| - 1]) + Pairs(ks[|ks| - 1], ao.items[ks[|ks| - 1]])
  }

  /** The `reverse` dict the loop builds: new spelling -> old spelling. */
  function ReverseOf(ao: AoDict): map<string, string>
    requires ao.Valid()
  {
    Assoc(ReversePairs(ao, ao.keys))
  }

  method ReverseTable(ao: AoDict) returns (reverse: map<string, string>)
    requires ao.Valid()
    ensures reverse == ReverseOf(ao)
  {
    reverse := map[];
    for i := 0 to |ao.keys|
      invariant reverse == Assoc(ReversePairs(ao, ao.keys[..i]))
    {
      var oldWord := ao.keys[i];
      var news := ao.items[oldWord];
      assert ao.keys[..i + 1][..i] == ao.keys[..i];
      ghost var done := ReversePairs(ao, ao.keys[..i]);
      assert done + Pairs(oldWord, news[..0]) == done;
      for j := 0 to |news|
        invariant reverse == Assoc(done + Pairs(oldWord, news[..j]))
      {
        assert done + Pairs(oldWord, news[..j + 1]) == (done + Pairs(oldWord, news[..j])) + [Some((news[j], oldWord))];
        AssocSnoc(done + Pairs(oldWord, news[..j]), Some((news[j], oldWord)));
        reverse := reverse[news[j] := oldWord];
      }
      assert news[..|news|] == news;
    }
    assert ao.keys[..|ao.keys|] == ao.keys;
  }

  /** After appending the pairs of `oldWord`, each of its new spellings maps to `oldWord`
      and every other spelling is as before. */
  lemma {:induction false} AssocPairs(done: seq<Option<(string, string)>>, oldWord: string, news: seq<string>)
    ensures forall n :: n in news ==> n in Assoc(done + Pairs(oldWord, news)) && Assoc(done + Pairs(oldWord, news))[n] == oldWord
    ensures forall n :: n !in news ==> (n in Assoc(done + Pairs(oldWord, news)) <==> n in Assoc(done))
    ensures forall n :: n !in news && n in Assoc(done) ==> Assoc(done + Pairs(oldWord, news))[n] == Assoc(done)[n]
  {
    if news != [] {
      var init := news[..|news| - 1];
      AssocPairs(done, oldWord, init);
      assert done + Pairs(oldWord, news) == (done + Pairs(oldWord, init)) + [Some((news[|news| - 1], oldWord))];
      AssocSnoc(done + Pairs(oldWord, init), Some((news[|news| - 1], oldWord)));
      assert forall n :: n in news ==> n in init || n == news[|news| - 1];
      assert forall n :: n in init ==> n in news;
    } else {
      assert done + Pairs(oldWord, news) == done;
    }
  }

  /** A new spelling is in the reverse table exactly when some old spelling lists it. */
  lemma {:induction false} ReverseDomain(ao: AoDict, ks: seq<string>, n: string)
    requires forall k :: k in ks ==> k in ao.items
    ensures (exists i :: 0 <= i < |ks| && n in ao.items[ks[i]]) <==> n in Assoc(ReversePairs(ao, ks))
  {
    if ks != [] {
      var init := ks[..|ks| - 1];
      var last := ks[|ks| - 1];
      ReverseDomain(ao, init, n);
      AssocPairs(ReversePairs(ao, init), last, ao.items[last]);
      if exists i :: 0 <= i < |ks| && n in ao.items[ks[i]] {
        var i :| 0 <= i < |ks| && n in ao.items[ks[i]];
        if i < |ks| - 1 {
          assert init[i] == ks[i];
        }
      }
      if n in Assoc(ReversePairs(ao, init)) {
        var i :| 0 <= i < |init| && n in ao.items[init[i]];
        assert ks[i] == init[i];
      }
    }
  }

  /** A new spelling is reversed to the LAST old spelling, in key order, that lists it. */
  lemma {:induction false} ReverseLastWins(ao: AoDict, ks: seq<string>, n: string, i: nat)
    requires forall k :: k in ks ==> k in ao.items
    requires i < |ks| && n in ao.items[ks[i]]
    requires forall l :: i < l < |ks| ==> n !in ao.items[ks[l]]
    ensures n in Assoc(ReversePairs(ao, ks)) && Assoc(ReversePairs(ao, ks))[n] == ks[i]
  {
    var init := ks[..|ks| - 1];
    var last := ks[|ks| - 1];
    AssocPairs(ReversePairs(ao, init), last, ao.items[last]);
    if i < |ks| - 1 {
      assert ks[i] == init[i];
      assert n !in ao.items[last];
      forall l | i < l < |init|
        ensures n !in ao.items[init[l]]
      {
        assert init[l] == ks[l];
      }
      ReverseLastWins(ao, init, n, i);
    }
  }

  /** `reverse.get(w, w)` */
  function Backward(reverse: map<string, string>, w: string): string
  {
    if w in reverse then reverse[w] else w
  }

  function ReverseSentence(reverse: map<string, string>, sentence: string): string
  {
    var ws := Words(sentence);
    Join(seq(|ws|, i requires 0 <= i < |ws| => Backward(reverse, ws[i])), " ")
  }

  /** `reverse_ao1900_pt(sentence)` with the Portuguese table, `reverse_ao1900_br`
      with the Brazilian one: build the reverse table, then rewrite each token. */
  method ReverseAo1990(ao: AoDict, sentence: string) returns (r: string)
    requires ao.Valid()
    ensures r == ReverseSentence(ReverseOf(ao), sentence)
  {
    var reverse := ReverseTable(ao);
    var ws := Words(sentence);
    var out := seq(|ws|, i requires 0 <= i < |ws| => Backward(reverse, ws[i]));
    r := Join(out, " ");
  }

  /** When the sentence's words that the reverse table lists map back to tokens,
      the output has the input's tokens, each new spelling turned into its old
      spelling and every other kept. */
  lemma ReverseTokens(ao: AoDict, sentence: string)
    requires ao.Valid()
    requires forall w :: w in Words(sentence) && w in ReverseOf(ao) ==> IsToken(ReverseOf(ao)[w])
    ensures var ws := Words(sentence); var out := Words(ReverseSentence(ReverseOf(ao), sentence));
      && |out| == |ws|
      && (forall i :: 0 <= i < |ws| && ws[i] in ReverseOf(ao) ==> out[i] == ReverseOf(ao)[ws[i]])
      && (forall i :: 0 <= i < |ws| && ws[i] !in ReverseOf(ao) ==> out[i] == ws[i])
  {
    var rev := ReverseOf(ao);
    var ws := Words(sentence);
    var ts := seq(|ws|, i requires 0 <= i < |ws| => Backward(rev, ws[i]));
    forall i | 0 <= i < |ts|
      ensures IsToken(ts[i])
    {
      assert ws[i] in Words(sentence);
    }
    WordsJoin(ts);
  }

  /** Every value of the reverse table is an old spelling of the table. */
  lemma ReverseValues(ao: AoDict, n: string)
    requires ao.Valid() && n in ReverseOf(ao)
    ensures ReverseOf(ao)[n] in ao.items
  {
    AssocValues(ReversePairs(ao, ao.keys), n);
    ReversePairsFrom(ao, ao.keys);
  }

  lemma {:induction false} ReversePairsFrom(ao: AoDict, ks: seq<string>)
    requires forall k :: k in ks ==> k in ao.items
    ensures forall j :: 0 <= j < |ReversePairs(ao, ks)| ==> ReversePairs(ao, ks)[j].Some? && ReversePairs(ao, ks)[j].value.1 in ks
  {
    if ks != [] {
      var init := ks[..|ks| - 1];
      ReversePairsFrom(ao, init);
      assert forall k :: k in init ==> k in ks;
    }
  }

  /** The first new spelling of `w` is a token that no other old spelling lists. */
  predicate FirstUnshared(ao: AoDict, w: string)
  {
    && w in ao.items && |ao.items[w]| >= 1 && IsToken(ao.items[w][0])
    && forall k :: k in ao.items && k != w ==> ao.items[w][0] !in ao.items[k]
  }

  /** The reverse table sends a first new spelling back to its old spelling when
      no other old spelling lists it. */
  lemma ReverseFirst(ao: AoDict, k: string)
    requires ao.Valid() && k in ao.items && |ao.items[k]| >= 1
    requires forall k' :: k' in ao.items && k' != k ==> ao.items[k][0] !in ao.items[k']
    ensures ao.items[k][0] in ReverseOf(ao) && ReverseOf(ao)[ao.items[k][0]] == k
  {
    var n := ao.items[k][0];
    var idx :| 0 <= idx < |ao.keys| && ao.keys[idx] == k;
    forall l | idx < l < |ao.keys|
      ensures n !in ao.items[ao.keys[l]]
    {
      assert ao.keys[l] != k;
    }
    ReverseLastWins(ao, ao.keys, n, idx);
  }

  /** Reversing a sentence normalised with table `fwd` through the reverse of table
      `rev` gives back the old spellings, for words both tables spell alike whose
      first new spelling no other old spelling of `rev` lists. */
  lemma RoundTrip(fwd: AoDict, rev: AoDict, ws: seq<string>)
    requires NonEmptyLists(fwd)
    requires rev.Valid() && NonEmptyLists(rev)
    requires forall i :: 0 <= i < |ws| ==>
      FirstUnshared(rev, ws[i]) && ws[i] in fwd.items && fwd.items[ws[i]] == rev.items[ws[i]] && IsToken(ws[i])
    ensures ReverseSentence(ReverseOf(rev), NormalizeAo1990(fwd, Join(ws, " "))) == Join(ws, " ")
  {
    var ts := MapTokens(fwd, ws);
    WordsJoin(ws);
    assert NormalizeAo1990(fwd, Join(ws, " ")) == Join(ts, " ");
    SameForward(fwd, rev, ws);
    BackwardFirst(rev, ws);
    WordsJoin(ts);
  }

  /** Two tables that spell the words alike rewrite them alike. */
  lemma SameForward(fwd: AoDict, rev: AoDict, ws: seq<string>)
    requires NonEmptyLists(fwd) && NonEmptyLists(rev)
    requires forall i :: 0 <= i < |ws| ==> ws[i] in fwd.items && ws[i] in rev.items && fwd.items[ws[i]] == rev.items[ws[i]]
    ensures MapTokens(fwd, ws) == MapTokens(rev, ws)
  {
  }

  /** `reverse_ao1900_br(normalize_ao1900(s)) == s` for a sentence of old Brazilian
      spellings whose first new spellings no other Brazilian entry lists: `AO1990`
      takes the Brazilian spelling wherever the two tables disagree. */
  lemma RoundTripBr(pt: AoDict, br: AoDict, ws: seq<string>)
    requires pt.Valid() && NonEmptyLists(pt)
    requires br.Valid() && NonEmptyLists(br)
    requires forall i :: 0 <= i < |ws| ==> FirstUnshared(br, ws[i]) && IsToken(ws[i])
    ensures ReverseSentence(ReverseOf(br), NormalizeAo1990(Ao1990(pt, br), Join(ws, " "))) == Join(ws, " ")
  {
    RoundTrip(Ao1990(pt, br), br, ws);
  }

  /** `reverse_ao1900_pt(normalize_ao1900(s)) == s` for a sentence of old Portuguese
      spellings that the Brazilian table does not list and whose first new spellings
      no other Portuguese entry lists. */
  lemma RoundTripPt(pt: AoDict, br: AoDict, ws: seq<string>)
    requires pt.Valid() && NonEmptyLists(pt)
    requires br.Valid() && NonEmptyLists(br)
    requires forall i :: 0 <= i < |ws| ==> FirstUnshared(pt, ws[i]) && ws[i] !in br.items && IsToken(ws[i])
    ensures ReverseSentence(ReverseOf(pt), NormalizeAo1990(Ao1990(pt, br), Join(ws, " "))) == Join(ws, " ")
  {
    RoundTrip(Ao1990(pt, br), pt, ws);
  }

  /** `a -> x`, `b -> y`, `c -> y`: the spelling `y` is shared by `b` and `c`. */
  function SharedTable(): (ao: AoDict)
    ensures ao.Valid() && NonEmptyLists(ao)
    ensures ao.keys == ["a", "b", "c"] && ao.items["a"] == ["x"] && ao.items["b"] == ao.items["c"] == ["y"]
  {
    Dict(["a", "b", "c"], map["a" := ["x"], "b" := ["y"], "c" := ["y"]])
  }

  /** A spelling shared by two entries affects only the words listing it: `a`
      still comes back from the table with `y` shared ... */
  lemma RoundTripSharedKeeps()
    ensures ReverseSentence(ReverseOf(SharedTable()), NormalizeAo1990(SharedTable(), "a")) == "a"
  {
    var ao := SharedTable();
    assert FirstUnshared(ao, "a");
    RoundTrip(ao, ao, ["a"]);
    assert Join(["a"], " ") == "a";
  }

  /** ... while `b` comes back as `c`, the later entry listing `y`. */
  lemma RoundTripSharedMoves()
    ensures ReverseSentence(ReverseOf(SharedTable()), NormalizeAo1990(SharedTable(), "b")) == "c"
  {
    var ao := SharedTable();
    OneToken("b");
    OneToken("y");
    assert MapTokens(ao, ["b"]) == ["y"];
    ReverseLastWins(ao, ao.keys, "y", 2);
    OneToken("c");
  }

  /** A single token is a one-word sentence. */
  lemma OneToken(w: string)
    requires IsToken(w)
    ensures Words(w) == [w] && Join([w], " ") == w
  {
    WordsJoin([w]);
  }

  /** A Portuguese old spelling that the Brazilian table also lists is normalised to
      the Brazilian new spelling, which the Portuguese reverse table does not know:
      `reverse_ao1900_pt(normalize_ao1900("x"))` is `"b"`, not `"x"`. */
  lemma RoundTripPtOverridden()
    ensures var pt := Dict(["x"], map["x" := ["a"]]); var br := Dict(["x"], map["x" := ["b"]]);
      ReverseSentence(ReverseOf(pt), NormalizeAo1990(Ao1990(pt, br), "x")) == "b"
  {
    var pt := Dict(["x"], map["x" := ["a"]]);
    var br := Dict(["x"], map["x" := ["b"]]);
    var ao := Ao1990(pt, br);
    OneToken("x");
    OneToken("b");
    assert MapTokens(ao, ["x"]) == ["b"];
    assert NormalizeAo1990(ao, "x") == "b";
    ReverseDomain(pt, pt.keys, "b");
    assert "b" !in ReverseOf(pt);
  }

  lemma BackwardFirst(ao: AoDict, ws: seq<string>)
    requires ao.Valid() && NonEmptyLists(ao)
    requires forall i :: 0 <= i < |ws| ==> FirstUnshared(ao, ws[i])
    ensures var ts := MapTokens(ao, ws);
      && (forall i :: 0 <= i < |ts| ==> IsToken(ts[i]))
      && seq(|ts|, i requires 0 <= i < |ts| => Backward(ReverseOf(ao), ts[i])) == ws
  {
    var ts := MapTokens(ao, ws);
    var back := seq(|ts|, i requires 0 <= i < |ts| => Backward(ReverseOf(ao), ts[i]));
    forall i | 0 <= i < |ts|
      ensures back[i] == ws[i]
    {
      ReverseFirst(ao, ws[i]);
    }
  }
}
