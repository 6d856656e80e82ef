/** The Python `str` operations the lexicon is built from, on `string`
    (a sequence of Unicode code points, as a Python `str` is).

    - `IsSpace` is Python's `str.isspace()` for one character, which decides
      what `strip()` and `split()` (with no argument) remove.
    - `Lower`/`Upper` cover the letters whose case mapping is a fixed offset
      of 32: ASCII and Latin-1 (`À`..`Þ` and `à`..`þ`, without `×`/`÷`).
    - `Split`/`SplitN` are `str.split(sep)` and `str.split(sep, maxsplit)`
      with an explicit, non-empty separator; `Join` is `sep.join(parts)`;
      `Words` is `str.split()` with no argument. */
module PyStr {

  predicate IsSpace(c: char)
  {
    || c == ' '
    || ('\t' <= c <= '\r')
    || ('\U{1C}' <= c <= '\U{1F}')
    || c == '\U{85}' || c == '\U{A0}' || c == '\U{1680}'
    || ('\U{2000}' <= c <= '\U{200A}')
    || c == '\U{2028}' || c == '\U{2029}' || c == '\U{202F}' || c == '\U{205F}' || c == '\U{3000}'
  }

  /** No whitespace anywhere in `s`. */
  predicate NoSpace(s: string)
  {
    forall i :: 0 <= i < |s| ==> !IsSpace(s[i])
  }

  predicate IsUpperLetter(c: char)
  {
    ('A' <= c <= 'Z') || ('\U{C0}' <= c <= '\U{DE}' && c != '\U{D7}')
  }

  predicate IsLowerLetter(c: char)
  {
    ('a' <= c <= 'z') || ('\U{E0}' <= c <= '\U{FE}' && c != '\U{F7}')
  }

  function LowerChar(c: char): char
  {
    if IsUpperLetter(c) then (c as int + 32) as char else c
  }

  function UpperChar(c: char): char
  {
    if IsLowerLetter(c) then (c as int - 32) as char else c
  }

  /** `s.lower()` */
  function Lower(s: string): string
  {
    seq(|s|, i requires 0 <= i < |s| => LowerChar(s[i]))
  }

  /** `s.upper()` */
  function Upper(s: string): string
  {
    seq(|s|, i requires 0 <= i < |s| => UpperChar(s[i]))
  }

  /** `s.replace(a, b)` for two one-character strings. */
  function Replace(s: string, a: char, b: char): string
  {
    seq(|s|, i requires 0 <= i < |s| => if s[i] == a then b else s[i])
  }

  /** `s.replace(c, "")` */
  function RemoveChar(s: string, c: char): (r: string)
    ensures forall x :: x in r <==> x in s && x != c
  {
    if s == [] then [] else (if s[0] == c then [] else [s[0]]) + RemoveChar(s[1..], c)
  }

  /** `s.count(c)` for a one-character `c`. */
  function Count(s: string, c: char): nat
  {
    if s == [] then 0 else (if s[0] == c then 1 else 0) + Count(s[1..], c)
  }

  /** `sub in s`: substring test. */
  predicate Contains(s: string, sub: string)
  {
    exists i | 0 <= i <= |s| :: sub <= s[i..]
  }

  function StripLeft(s: string): (r: string)
    ensures |r| <= |s|
    ensures r == [] || !IsSpace(r[0])
  {
    if |s| > 0 && IsSpace(s[0]) then StripLeft(s[1..]) else s
  }

  function StripRight(s: string): (r: string)
    ensures |r| <= |s|
    ensures r == [] || !IsSpace(r[|r| - 1])
  {
    if |s| > 0 && IsSpace(s[|s| - 1]) then StripRight(s[..|s| - 1]) else s
  }

  /** `s.strip()`: the longest infix of `s` that neither starts nor ends with whitespace. */
  function Strip(s: string): (r: string)
    ensures r == [] || (!IsSpace(r[0]) && !IsSpace(r[|r| - 1]))
    ensures forall x :: x in r ==> x in s
  {
    StripLeftSuffix(s);
    StripRightPrefix(StripLeft(s));
    StripRight(StripLeft(s))
  }

  lemma {:induction false} StripLeftSuffix(s: string)
    ensures StripLeft(s) == s[|s| - |StripLeft(s)|..]
  {
    if |s| > 0 && IsSpace(s[0]) {
      StripLeftSuffix(s[1..]);
    }
  }

  lemma {:induction false} StripRightPrefix(s: string)
    ensures StripRight(s) == s[..|StripRight(s)|]
  {
    if |s| > 0 && IsSpace(s[|s| - 1]) {
      StripRightPrefix(s[..|s| - 1]);
    }
  }

  /** `s.split(sep, maxsplit)`: at most `maxsplit` cuts, scanning from the left. */
  function SplitN(s: string, sep: string, maxsplit: nat): (r: seq<string>)
    requires |sep| > 0
    ensures 1 <= |r| <= maxsplit + 1
    decreases |s|
  {
    if maxsplit == 0 || |s| < |sep| then [s]
    else if s[..|sep|] == sep then [""] + SplitN(s[|sep|..], sep, maxsplit - 1)
    else
      var rest := SplitN(s[1..], sep, maxsplit);
      [[s[0]] + rest[0]] + rest[1..]
  }

  /** `s.split(sep)`: a string of length n holds at most n separators, so n cuts are never a limit. */
  function Split(s: string, sep: string): (r: seq<string>)
    requires |sep| > 0
    ensures |r| >= 1
  {
    SplitN(s, sep, |s|)
  }

  /** `sep.join(parts)` */
  function Join(parts: seq<string>, sep: string): string
  {
    if |parts| == 0 then ""
    else if |parts| == 1 then parts[0]
    else parts[0] + sep + Join(parts[1..], sep)
  }

  /** Length of the leading run of non-whitespace characters. */
  function TokenLen(s: string): (n: nat)
    ensures n <= |s|
    ensures NoSpace(s[..n])
    ensures n == |s| || IsSpace(s[n])
  {
    if s == [] || IsSpace(s[0]) then 0 else 1 + TokenLen(s[1..])
  }

  /** `s.split()`: the maximal runs of non-whitespace characters, in order. */
  function Words(s: string): (r: seq<string>)
    ensures forall i :: 0 <= i < |r| ==> IsToken(r[i])
    decreases |s|
  {
    var t := StripLeft(s);
    if t == [] then []
    else
      var n := TokenLen(t);
      assert n > 0;
      var token := t[..n];
      assert IsToken(token);
      [token] + Words(t[n..])
  }

  /** A string `s.split()` gives back unchanged as one token. */
  predicate IsToken(s: string)
  {
    s != [] && NoSpace(s)
  }

  // ---------------------------------------------------------------------
  // Lemmas

  /** Splitting and joining with the same separator gives the string back. */
  lemma {:induction false} JoinSplitN(s: string, sep: string, maxsplit: nat)
    requires |sep| > 0
    ensures Join(SplitN(s, sep, maxsplit), sep) == s
    decreases |s|
  {
    if maxsplit == 0 || |s| < |sep| {
    } else if s[..|sep|] == sep {
      var tail := s[|sep|..];
      var rest := SplitN(tail, sep, maxsplit - 1);
      JoinSplitN(tail, sep, maxsplit - 1);
      var r := [""] + rest;
      assert SplitN(s, sep, maxsplit) == r;
      assert r[1..] == rest;
      assert Join(r, sep) == "" + sep + Join(rest, sep);
      assert s == sep + tail;
    } else {
      var tail := s[1..];
      var rest := SplitN(tail, sep, maxsplit);
      JoinSplitN(tail, sep, maxsplit);
      assert SplitN(s, sep, maxsplit) == [[s[0]] + rest[0]] + rest[1..];
      JoinGlue(s[0], rest, sep);
      assert s == [s[0]] + tail;
    }
  }

  /** Gluing a character onto the first part glues it onto the joined string. */
  lemma JoinGlue(c: char, parts: seq<string>, sep: string)
    requires |parts| >= 1
    ensures Join([[c] + parts[0]] + parts[1..], sep) == [c] + Join(parts, sep)
  {
    var r := [[c] + parts[0]] + parts[1..];
    if |parts| > 1 {
      assert r[1..] == parts[1..];
    }
  }

  lemma JoinSplit(s: string, sep: string)
    requires |sep| > 0
    ensures Join(Split(s, sep), sep) == s
  {
    JoinSplitN(s, sep, |s|);
  }

  lemma {:induction false} CountBound(s: string, c: char)
    ensures Count(s, c) <= |s|
    ensures c !in s <==> Count(s, c) == 0
  {
    if s != [] {
      CountBound(s[1..], c);
      assert s == [s[0]] + s[1..];
    }
  }

  /** `s.split(c, n)` makes a cut at each of the first `n` occurrences of `c`, and no others. */
  lemma {:induction false} SplitNCount(s: string, c: char, maxsplit: nat)
    ensures |SplitN(s, [c], maxsplit)| == (if Count(s, c) < maxsplit then Count(s, c) else maxsplit) + 1
    decreases |s|
  {
    if maxsplit == 0 || |s| < 1 {
    } else if s[..1] == [c] {
      SplitNCount(s[1..], c, maxsplit - 1);
    } else {
      SplitNCount(s[1..], c, maxsplit);
    }
  }

  /** Every piece of `s.split(c, n)` but the last is free of `c`; so is the last once all occurrences were cut. */
  lemma {:induction false} SplitNPieces(s: string, c: char, maxsplit: nat)
    ensures forall i :: 0 <= i < |SplitN(s, [c], maxsplit)| - 1 ==> c !in SplitN(s, [c], maxsplit)[i]
    ensures Count(s, c) <= maxsplit ==> c !in SplitN(s, [c], maxsplit)[|SplitN(s, [c], maxsplit)| - 1]
    decreases |s|
  {
    var r := SplitN(s, [c], maxsplit);
    if maxsplit == 0 || |s| < 1 {
      if Count(s, c) <= maxsplit {
        CountBound(s, c);
      }
    } else if s[..1] == [c] {
      SplitNPieces(s[1..], c, maxsplit - 1);
      assert r == [""] + SplitN(s[1..], [c], maxsplit - 1);
    } else {
      var rest := SplitN(s[1..], [c], maxsplit);
      SplitNPieces(s[1..], c, maxsplit);
      assert r == [[s[0]] + rest[0]] + rest[1..];
      assert s[..1] == [s[0]];
      forall i | 0 <= i < |r| - 1
        ensures c !in r[i]
      {
        if i > 0 {
          assert r[i] == rest[i];
        } else {
          assert 0 < |rest| - 1;
          assert c !in rest[0];
          assert r[0] == [s[0]] + rest[0];
        }
      }
      if |rest| == 1 && Count(s, c) <= maxsplit {
        assert c !in rest[0];
      }
    }
  }

  /** `s.split(c)` leaves no `c` in any piece. */
  lemma SplitPieces(s: string, c: char)
    ensures forall p :: p in Split(s, [c]) ==> c !in p
  {
    var r := Split(s, [c]);
    SplitNPieces(s, c, |s|);
    CountBound(s, c);
    forall p | p in r
      ensures c !in p
    {
      var i :| 0 <= i < |r| && r[i] == p;
    }
  }

  lemma {:induction false} CountRemoveChar(s: string, q: char, c: char)
    requires q != c
    ensures Count(RemoveChar(s, q), c) == Count(s, c)
  {
    if s != [] {
      CountRemoveChar(s[1..], q, c);
      var head := if s[0] == q then [] else [s[0]];
      CountAppend(head, RemoveChar(s[1..], q), c);
    }
  }

  lemma {:induction false} CountAppend(a: string, b: string, c: char)
    ensures Count(a + b, c) == Count(a, c) + Count(b, c)
  {
    if a != [] {
      CountAppend(a[1..], b, c);
      assert (a + b)[1..] == a[1..] + b;
    } else {
      assert a + b == b;
    }
  }

  /** Lower-casing does not touch a character that is not a letter (a comma, a space). */
  lemma {:induction false} CountLower(s: string, c: char)
    requires !IsUpperLetter(c) && !IsLowerLetter(c)
    ensures Count(Lower(s), c) == Count(s, c)
  {
    if s != [] {
      CountLower(s[1..], c);
      assert Lower(s)[1..] == Lower(s[1..]);
    }
  }

  lemma LowerIdempotent(s: string)
    ensures Lower(Lower(s)) == Lower(s)
  {
  }

  lemma UpperIdempotent(s: string)
    ensures Upper(Upper(s)) == Upper(s)
  {
  }

  /** `s.upper().lower() == s.lower()` for every string. */
  lemma LowerUpper(s: string)
    ensures Lower(Upper(s)) == Lower(s)
  {
  }

  lemma {:induction false} StripLeftIdle(s: string)
    requires s == [] || !IsSpace(s[0])
    ensures StripLeft(s) == s
  {
  }

  /** Case mapping neither creates nor removes whitespace. */
  lemma CaseKeepsSpace(c: char)
    ensures IsSpace(LowerChar(c)) == IsSpace(c)
    ensures IsSpace(UpperChar(c)) == IsSpace(c)
  {
  }

  lemma LowerTail(s: string)
    requires s != []
    ensures Lower(s) == [LowerChar(s[0])] + Lower(s[1..])
    ensures Lower(s) == Lower(s[..|s| - 1]) + [LowerChar(s[|s| - 1])]
  {
  }

  lemma UpperTail(s: string)
    requires s != []
    ensures Upper(s) == [UpperChar(s[0])] + Upper(s[1..])
    ensures Upper(s) == Upper(s[..|s| - 1]) + [UpperChar(s[|s| - 1])]
  {
  }

  /** So lower-casing commutes with stripping on the left ... */
  lemma {:induction false} StripLeftLower(s: string)
    ensures StripLeft(Lower(s)) == Lower(StripLeft(s))
    decreases |s|
  {
    if s != [] {
      LowerTail(s);
      CaseKeepsSpace(s[0]);
      if IsSpace(s[0]) {
        StripLeftLower(s[1..]);
      }
    }
  }

  /** ... and on the right, */
  lemma {:induction false} StripRightLower(s: string)
    ensures StripRight(Lower(s)) == Lower(StripRight(s))
    decreases |s|
  {
    if s != [] {
      LowerTail(s);
      CaseKeepsSpace(s[|s| - 1]);
      if IsSpace(s[|s| - 1]) {
        StripRightLower(s[..|s| - 1]);
      }
    }
  }

  /** and so does upper-casing. */
  lemma {:induction false} StripLeftUpper(s: string)
    ensures StripLeft(Upper(s)) == Upper(StripLeft(s))
    decreases |s|
  {
    if s != [] {
      UpperTail(s);
      CaseKeepsSpace(s[0]);
      if IsSpace(s[0]) {
        StripLeftUpper(s[1..]);
      }
    }
  }

  lemma {:induction false} StripRightUpper(s: string)
    ensures StripRight(Upper(s)) == Upper(StripRight(s))
    decreases |s|
  {
    if s != [] {
      UpperTail(s);
      CaseKeepsSpace(s[|s| - 1]);
      if IsSpace(s[|s| - 1]) {
        StripRightUpper(s[..|s| - 1]);
      }
    }
  }

  lemma StripCase(s: string)
    ensures Strip(Lower(s)) == Lower(Strip(s))
    ensures Strip(Upper(s)) == Upper(Strip(s))
  {
    StripLeftLower(s);
    StripRightLower(StripLeft(s));
    StripLeftUpper(s);
    StripRightUpper(StripLeft(s));
  }

  lemma StripIdle(s: string)
    requires s == [] || (!IsSpace(s[0]) && !IsSpace(s[|s| - 1]))
    ensures Strip(s) == s
  {
  }

  /** `s.strip().lower()` is a fixed point of the same normalisation. */
  lemma NormalizeIdempotent(s: string)
    ensures Lower(Strip(Lower(Strip(s)))) == Lower(Strip(s))
  {
    var t := Strip(s);
    StripCase(t);
    StripIdle(t);
    LowerIdempotent(t);
  }

  /** Joining tokens with single spaces and splitting on whitespace gives the tokens back. */
  lemma {:induction false} WordsJoin(ts: seq<string>)
    requires forall i :: 0 <= i < |ts| ==> IsToken(ts[i])
    ensures Words(Join(ts, " ")) == ts
  {
    if ts == [] {
    } else if |ts| == 1 {
      WordsToken(ts[0], "");
      assert ts[0] + "" == ts[0];
    } else {
      var rest := Join(ts[1..], " ");
      WordsJoin(ts[1..]);
      assert Join(ts, " ") == ts[0] + (" " + rest);
      WordsToken(ts[0], " " + rest);
      WordsSpace(rest);
    }
  }

  /** A token followed by nothing or by whitespace is the first word. */
  lemma WordsToken(a: string, b: string)
    requires IsToken(a)
    requires b == [] || IsSpace(b[0])
    ensures Words(a + b) == [a] + Words(b)
  {
    var s := a + b;
    StripLeftIdle(s);
    TokenPrefix(a, b);
    assert s[..|a|] == a;
    assert s[|a|..] == b;
  }

  /** A leading space does not change the words. */
  lemma WordsSpace(s: string)
    ensures Words(" " + s) == Words(s)
  {
    assert (" " + s)[1..] == s;
    assert StripLeft(" " + s) == StripLeft(s);
    WordsOfStripped(" " + s);
    WordsOfStripped(s);
  }

  lemma WordsOfStripped(s: string)
    ensures Words(s) == Words(StripLeft(s))
  {
    var t := StripLeft(s);
    StripLeftTwice(s);
  }

  lemma StripLeftTwice(s: string)
    ensures StripLeft(StripLeft(s)) == StripLeft(s)
  {
    StripLeftIdle(StripLeft(s));
  }

  lemma {:induction false} TokenPrefix(a: string, b: string)
    requires IsToken(a)
    requires b == [] || IsSpace(b[0])
    ensures TokenLen(a + b) == |a|
    decreases |a|
  {
    if |a| > 1 {
      assert (a + b)[1..] == a[1..] + b;
      TokenPrefix(a[1..], b);
    } else {
      assert (a + b)[1..] == b;
    }
  }

  /** A substring of a substring is a substring. */
  lemma ContainsPrefix(s: string, sub: string, k: nat)
    requires Contains(s, sub) && k <= |sub|
    ensures Contains(s, sub[..k])
  {
    var i :| 0 <= i <= |s| && sub <= s[i..];
    assert sub[..k] <= s[i..];
  }

  /** `s.strip().lower()` leaves `s` as it is. */
  predicate Normalized(s: string)
  {
    Lower(Strip(s)) == s
  }

  /** After `s.replace(a, b)` with `a != b` no `a` is left, and nothing else appeared. */
  lemma ReplaceRemoves(s: string, a: char, b: char)
    requires a != b
    ensures a !in Replace(s, a, b)
    ensures forall x :: x in Replace(s, a, b) ==> x in s || x == b
  {
    var r := Replace(s, a, b);
    forall x | x in r
      ensures x != a && (x in s || x == b)
    {
      var i :| 0 <= i < |r| && r[i] == x;
    }
  }

  /** A character of a piece occurs in the joined string. */
  lemma {:induction false} JoinHolds(parts: seq<string>, sep: string, i: nat, x: char)
    requires i < |parts| && x in parts[i]
    ensures x in Join(parts, sep)
  {
    if |parts| > 1 {
      if i > 0 {
        JoinHolds(parts[1..], sep, i - 1, x);
      }
      assert Join(parts, sep) == parts[0] + (sep + Join(parts[1..], sep));
    }
  }

  lemma JoinTwo(parts: seq<string>, sep: string)
    requires |parts| == 2
    ensures Join(parts, sep) == parts[0] + sep + parts[1]
  {
    assert Join(parts[1..], sep) == parts[1];
  }

  lemma JoinThree(parts: seq<string>, sep: string)
    requires |parts| == 3
    ensures Join(parts, sep) == parts[0] + sep + parts[1] + sep + parts[2]
  {
    JoinTwo(parts[1..], sep);
  }

  /** A string without upper-case letters is its own `lower()`. */
  lemma LowerFixed(s: string)
    requires forall c :: c in s ==> !IsUpperLetter(c)
    ensures Lower(s) == s
  {
    assert forall i :: 0 <= i < |s| ==> s[i] in s;
  }

  /** `lower()` leaves no upper-case letter. */
  lemma LowerNoUpper(s: string, c: char)
    requires c in Lower(s)
    ensures !IsUpperLetter(c)
  {
    var i :| 0 <= i < |s| && Lower(s)[i] == c;
  }

  /** Every character of `s` is whitespace. */
  predicate AllSpace(s: string)
  {
    forall i :: 0 <= i < |s| ==> IsSpace(s[i])
  }

  /** Leading whitespace is what `lstrip` removes. */
  lemma {:induction false} StripLeftSpaces(pre: string, s: string)
    requires AllSpace(pre)
    ensures StripLeft(pre + s) == StripLeft(s)
    decreases |pre|
  {
    if pre != [] {
      assert (pre + s)[0] == pre[0];
      assert (pre + s)[1..] == pre[1..] + s;
      StripLeftSpaces(pre[1..], s);
    } else {
      assert pre + s == s;
    }
  }

  /** Trailing whitespace is what `rstrip` removes. */
  lemma {:induction false} StripRightSpaces(s: string, suf: string)
    requires AllSpace(suf)
    ensures StripRight(s + suf) == StripRight(s)
    decreases |suf|
  {
    if suf != [] {
      assert (s + suf)[..|s + suf| - 1] == s + suf[..|suf| - 1];
      StripRightSpaces(s, suf[..|suf| - 1]);
    } else {
      assert s + suf == s;
    }
  }

  /** `lstrip` of a string followed by whitespace. */
  lemma {:induction false} StripLeftBefore(s: string, suf: string)
    requires AllSpace(suf)
    ensures StripLeft(s + suf) == (if StripLeft(s) == [] then [] else StripLeft(s) + suf)
    decreases |s|
  {
    if s == [] {
      StripLeftSpaces(suf, []);
      assert suf + [] == suf && [] + suf == suf;
    } else if IsSpace(s[0]) {
      assert (s + suf)[1..] == s[1..] + suf;
      StripLeftBefore(s[1..], suf);
    }
  }

  /** `strip` ignores whitespace added on either side. */
  lemma StripPadded(pre: string, s: string, suf: string)
    requires AllSpace(pre) && AllSpace(suf)
    ensures Strip(pre + s + suf) == Strip(s)
  {
    assert pre + s + suf == pre + (s + suf);
    StripLeftSpaces(pre, s + suf);
    StripLeftBefore(s, suf);
    if StripLeft(s) != [] {
      StripRightSpaces(StripLeft(s), suf);
    }
  }

  /** The first piece of a split is a prefix of the string. */
  lemma {:induction false} SplitNFirst(s: string, sep: string, maxsplit: nat)
    requires |sep| > 0
    ensures SplitN(s, sep, maxsplit)[0] <= s
    decreases |s|
  {
    if maxsplit == 0 || |s| < |sep| {
    } else if s[..|sep|] == sep {
    } else {
      SplitNFirst(s[1..], sep, maxsplit);
    }
  }

  /** With cuts to spare, `s.split(sep)` leaves no `sep` inside any piece. */
  lemma {:induction false} SplitNNoSep(s: string, sep: string, maxsplit: nat)
    requires |sep| > 0 && maxsplit >= |s|
    ensures forall p :: p in SplitN(s, sep, maxsplit) ==> !Contains(p, sep)
    decreases |s|
  {
    var r := SplitN(s, sep, maxsplit);
    if maxsplit == 0 || |s| < |sep| {
      assert r == [s];
      forall i | 0 <= i <= |s|
        ensures !(sep <= s[i..])
      {
      }
    } else if s[..|sep|] == sep {
      SplitNNoSep(s[|sep|..], sep, maxsplit - 1);
      forall i | 0 <= i <= 0
        ensures !(sep <= ""[i..])
      {
      }
    } else {
      var rest := SplitN(s[1..], sep, maxsplit);
      SplitNNoSep(s[1..], sep, maxsplit);
      SplitNFirst(s[1..], sep, maxsplit);
      var p0 := [s[0]] + rest[0];
      assert r == [p0] + rest[1..];
      forall i | 0 <= i <= |p0|
        ensures !(sep <= p0[i..])
      {
        if i == 0 {
          assert p0 <= s;
          assert sep <= p0 ==> sep <= s;
        } else {
          assert p0[i..] == rest[0][i - 1..];
          assert sep <= p0[i..] ==> Contains(rest[0], sep);
        }
      }
      forall p | p in r
        ensures !Contains(p, sep)
      {
        if p != p0 {
          assert p in rest;
        }
      }
    }
  }

  lemma SplitNoSep(s: string, sep: string)
    requires |sep| > 0
    ensures forall p :: p in Split(s, sep) ==> !Contains(p, sep)
  {
    SplitNNoSep(s, sep, |s|);
  }
}
