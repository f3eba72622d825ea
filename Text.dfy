/**
 * The string operations of java.lang.String, java.util.regex and java.util.StringTokenizer that the
 * reference database relies on: case conversion (ASCII only), `trim`, `split` with the title-word
 * delimiter class, and tokenizing on a single delimiter character.
 */
module Text {

  /** Character.toLowerCase, restricted to ASCII letters. */
  function Lower(c: char): char {
    if 'A' <= c <= 'Z' then (c as int + 32) as char else c
  }

  /** Character.toUpperCase, restricted to ASCII letters. */
  function Upper(c: char): char {
    if 'a' <= c <= 'z' then (c as int - 32) as char else c
  }

  /** String.toLowerCase. */
  function LowerStr(s: string): string {
    seq(|s|, i requires 0 <= i < |s| => Lower(s[i]))
  }

  /** String.equalsIgnoreCase. */
  predicate EqualsIgnoreCase(a: string, b: string) {
    LowerStr(a) == LowerStr(b)
  }

  lemma LowerStrIdempotent(s: string)
    ensures LowerStr(LowerStr(s)) == LowerStr(s)
  {
  }

  // ---------------------------------------------------------------------------------------------
  // String.trim: strip leading and trailing characters whose code is at most U+0020.

  predicate IsTrimmed(c: char) {
    c <= ' '
  }

  function TrimLeft(s: string): (r: string)
    ensures |r| <= |s|
  {
    if s != [] && IsTrimmed(s[0]) then TrimLeft(s[1..]) else s
  }

  /** TrimLeft drops exactly the leading trimmable characters. */
  lemma {:induction false} TrimLeftShape(s: string)
    ensures TrimLeft(s) == s[|s| - |TrimLeft(s)|..]
    ensures TrimLeft(s) == [] || !IsTrimmed(TrimLeft(s)[0])
    ensures forall i :: 0 <= i < |s| - |TrimLeft(s)| ==> IsTrimmed(s[i])
  {
    if s != [] && IsTrimmed(s[0]) {
      TrimLeftShape(s[1..]);
      assert s[1..][|s| - 1 - |TrimLeft(s)|..] == s[|s| - |TrimLeft(s)|..];
    }
  }

  function TrimRight(s: string): (r: string)
    ensures |r| <= |s|
  {
    if s != [] && IsTrimmed(s[|s| - 1]) then TrimRight(s[..|s| - 1]) else s
  }

  /** TrimRight drops exactly the trailing trimmable characters. */
  lemma {:induction false} TrimRightShape(s: string)
    ensures TrimRight(s) == s[..|TrimRight(s)|]
    ensures TrimRight(s) == [] || !IsTrimmed(TrimRight(s)[|TrimRight(s)| - 1])
    ensures forall i :: |TrimRight(s)| <= i < |s| ==> IsTrimmed(s[i])
  {
    if s != [] && IsTrimmed(s[|s| - 1]) {
      TrimRightShape(s[..|s| - 1]);
      assert s[..|s| - 1][..|TrimRight(s)|] == s[..|TrimRight(s)|];
    }
  }

  /** String.trim: drops control and space characters from both ends (TrimShape says exactly which
      characters go). */
  function Trim(s: string): (r: string)
    ensures |r| <= |s| && HasTrimmedEnds(r)
  {
    TrimLeftShape(s);
    TrimRightShape(TrimLeft(s));
    TrimRight(TrimLeft(s))
  }

  /** The trimmed string is the infix of `s` after the leading and before the trailing trimmable
      characters, and only trimmable characters were dropped. */
  lemma TrimShape(s: string)
    ensures TrimStart(s) + |Trim(s)| <= |s|
    ensures Trim(s) == s[TrimStart(s)..TrimStart(s) + |Trim(s)|]
    ensures forall i :: 0 <= i < TrimStart(s) ==> IsTrimmed(s[i])
    ensures forall i :: TrimStart(s) + |Trim(s)| <= i < |s| ==> IsTrimmed(s[i])
  {
    var l := TrimLeft(s);
    var i := TrimStart(s);
    TrimLeftShape(s);
    assert l == s[i..];
    TrimRightInfix(s, i, l);
  }

  /** Trimming the right end of the suffix `l` of `s` keeps an infix of `s` and drops only trimmable
      characters of `s`. */
  lemma TrimRightInfix(s: string, i: nat, l: string)
    requires i <= |s| && l == s[i..]
    ensures i + |TrimRight(l)| <= |s|
    ensures TrimRight(l) == s[i..i + |TrimRight(l)|]
    ensures forall j :: i + |TrimRight(l)| <= j < |s| ==> IsTrimmed(s[j])
  {
    var r := TrimRight(l);
    TrimRightShape(l);
    SliceOfSlice(s, i, |r|);
    forall j | i + |r| <= j < |s|
      ensures IsTrimmed(s[j])
    {
      assert s[j] == l[j - i];
    }
  }

  lemma SliceOfSlice(s: string, i: nat, n: nat)
    requires i + n <= |s|
    ensures s[i..][..n] == s[i..i + n]
  {
  }

  /** Where the trimmed string starts in `s`: the number of leading trimmable characters. */
  function TrimStart(s: string): (n: nat)
    ensures n <= |s|
  {
    |s| - |TrimLeft(s)|
  }

  /** Neither end of the string is a trimmable character. */
  predicate HasTrimmedEnds(s: string) {
    s == [] || (!IsTrimmed(s[0]) && !IsTrimmed(s[|s| - 1]))
  }

  /** A string with no trimmable character at either end is its own trim. */
  lemma TrimOfTrimmed(s: string)
    requires HasTrimmedEnds(s)
    ensures Trim(s) == s
  {
  }

  /** Trimming is idempotent. */
  lemma TrimIdempotent(s: string)
    ensures Trim(Trim(s)) == Trim(s)
  {
    TrimOfTrimmed(Trim(s));
  }

  /** A leading space in front of an already trimmed string is removed by trim. */
  lemma {:induction false} TrimSpacePrefix(s: string)
    requires HasTrimmedEnds(s)
    ensures Trim([' '] + s) == s
  {
    assert ([' '] + s)[1..] == s;
    assert TrimLeft([' '] + s) == TrimLeft(s) == s;
  }

  /** A title is blank when nothing is left after trimming ("".equals(title.trim())). */
  predicate IsBlank(s: string) {
    Trim(s) == []
  }

  // ---------------------------------------------------------------------------------------------
  // String.split with the regular expression "[ ./@,;+{}()\"&:-]+" (RefDb.RegexWordSplit).

  /** The delimiter class of the title-word split. */
  predicate IsWordDelimiter(c: char) {
    c in " ./@,;+{}()\"&:-"
  }

  /** Removes the delimiters from a string: what survives any split on the delimiter class. */
  function NonDelimiters(s: string): string {
    if s == [] then [] else (if IsWordDelimiter(s[0]) then [] else [s[0]]) + NonDelimiters(s[1..])
  }

  /** Skips a run of delimiters (the `+` of the regular expression). */
  function DropDelimiters(s: string): (r: string)
    ensures |r| <= |s|
  {
    if s != [] && IsWordDelimiter(s[0]) then DropDelimiters(s[1..]) else s
  }

  /** DropDelimiters drops exactly the leading run of delimiters. */
  lemma {:induction false} DropDelimitersShape(s: string)
    ensures DropDelimiters(s) == s[|s| - |DropDelimiters(s)|..]
    ensures DropDelimiters(s) == [] || !IsWordDelimiter(DropDelimiters(s)[0])
    ensures forall i :: 0 <= i < |s| - |DropDelimiters(s)| ==> IsWordDelimiter(s[i])
  {
    if s != [] && IsWordDelimiter(s[0]) {
      DropDelimitersShape(s[1..]);
      assert s[1..][|s| - 1 - |DropDelimiters(s)|..] == s[|s| - |DropDelimiters(s)|..];
    }
  }

  /** The pieces between maximal delimiter runs; `cur` is the piece read so far. */
  function Pieces(s: string, cur: string): seq<string>
    decreases |s|
  {
    if s == [] then [cur]
    else if IsWordDelimiter(s[0]) then [cur] + Pieces(DropDelimiters(s[1..]), [])
    else Pieces(s[1..], cur + [s[0]])
  }

  function DropTrailingEmpty(ss: seq<string>): seq<string> {
    if ss != [] && ss[|ss| - 1] == [] then DropTrailingEmpty(ss[..|ss| - 1]) else ss
  }

  /** String.split(RegexWordSplit): the pieces between delimiter runs; a leading empty piece is kept
      when the string starts with a delimiter, trailing empty pieces are dropped, and a string
      without any match (here only the empty string can have an empty piece then) yields itself. */
  function SplitWords(s: string): seq<string> {
    if s == [] then [[]] else DropTrailingEmpty(Pieces(s, []))
  }

  /** The words of a list, as a set. */
  function WordSet(words: seq<string>): set<string> {
    set w | w in words
  }

  /** The title-word keys of a title: the words of the lower-cased title (RefDb.java:455). */
  function TitleWords(title: string): set<string> {
    WordSet(SplitWords(LowerStr(title)))
  }

  function Concat(ss: seq<string>): string {
    if ss == [] then [] else ss[0] + Concat(ss[1..])
  }

  lemma {:induction false} ConcatAppend(a: seq<string>, b: seq<string>)
    ensures Concat(a + b) == Concat(a) + Concat(b)
  {
    if a != [] {
      assert (a + b)[0] == a[0];
      assert (a + b)[1..] == a[1..] + b;
      ConcatAppend(a[1..], b);
      calc {
        Concat(a + b);
        a[0] + Concat(a[1..] + b);
        a[0] + (Concat(a[1..]) + Concat(b));
        (a[0] + Concat(a[1..])) + Concat(b);
        Concat(a) + Concat(b);
      }
    } else {
      assert a + b == b;
    }
  }

  lemma {:induction false} NonDelimitersAppend(a: string, b: string)
    ensures NonDelimiters(a + b) == NonDelimiters(a) + NonDelimiters(b)
  {
    if a != [] {
      assert (a + b)[0] == a[0];
      assert (a + b)[1..] == a[1..] + b;
      NonDelimitersAppend(a[1..], b);
      var h := if IsWordDelimiter(a[0]) then [] else [a[0]];
      calc {
        NonDelimiters(a + b);
        h + NonDelimiters(a[1..] + b);
        h + (NonDelimiters(a[1..]) + NonDelimiters(b));
        (h + NonDelimiters(a[1..])) + NonDelimiters(b);
        NonDelimiters(a) + NonDelimiters(b);
      }
    } else {
      assert a + b == b;
    }
  }

  lemma {:induction false} NonDelimitersOfDelimiters(s: string)
    requires forall i :: 0 <= i < |s| ==> IsWordDelimiter(s[i])
    ensures NonDelimiters(s) == []
  {
    if s != [] {
      NonDelimitersOfDelimiters(s[1..]);
    }
  }

  lemma NonDelimitersDrop(s: string)
    ensures NonDelimiters(DropDelimiters(s)) == NonDelimiters(s)
  {
    var r := DropDelimiters(s);
    DropDelimitersShape(s);
    assert s == s[..|s| - |r|] + r;
    NonDelimitersAppend(s[..|s| - |r|], r);
    NonDelimitersOfDelimiters(s[..|s| - |r|]);
  }

  /** Nothing but delimiters is lost by Pieces: the pieces concatenate to `cur` followed by the
      non-delimiter characters of `s`, no piece holds a delimiter, and only the first and the last
      piece can be empty. */
  lemma {:induction false} PiecesShape(s: string, cur: string)
    requires forall c :: c in cur ==> !IsWordDelimiter(c)
    ensures Concat(Pieces(s, cur)) == cur + NonDelimiters(s)
    ensures forall p, c :: p in Pieces(s, cur) && c in p ==> !IsWordDelimiter(c)
    ensures forall i :: 0 < i < |Pieces(s, cur)| - 1 ==> Pieces(s, cur)[i] != []
    ensures cur != [] ==> Pieces(s, cur)[0] != []
    decreases |s|
  {
    if s == [] {
      assert Concat([cur]) == cur + Concat([]);
    } else if IsWordDelimiter(s[0]) {
      var rest := DropDelimiters(s[1..]);
      PiecesShape(rest, []);
      var tail := Pieces(rest, []);
      ConcatAppend([cur], tail);
      assert Concat([cur]) == cur + Concat([]);
      NonDelimitersDrop(s[1..]);
      assert NonDelimiters(s) == NonDelimiters(s[1..]);
      if rest != [] {
        DropDelimitersShape(s[1..]);
        PiecesFirst(rest, []);
      }
    } else {
      PiecesShape(s[1..], cur + [s[0]]);
      assert NonDelimiters(s) == [s[0]] + NonDelimiters(s[1..]);
      PiecesFirst(s[1..], cur + [s[0]]);
    }
  }

  /** The first piece extends `cur`; it is non-empty when the string starts with a non-delimiter. */
  lemma {:induction false} PiecesFirst(s: string, cur: string)
    ensures |Pieces(s, cur)| > 0
    ensures |Pieces(s, cur)[0]| >= |cur|
    ensures s != [] && !IsWordDelimiter(s[0]) ==> Pieces(s, cur)[0] != []
    decreases |s|
  {
    if s != [] && !IsWordDelimiter(s[0]) {
      PiecesFirst(s[1..], cur + [s[0]]);
    } else if s != [] {
      PiecesFirst(DropDelimiters(s[1..]), []);
    }
  }

  lemma {:induction false} DropTrailingEmptyShape(ss: seq<string>)
    ensures |DropTrailingEmpty(ss)| <= |ss| && DropTrailingEmpty(ss) == ss[..|DropTrailingEmpty(ss)|]
    ensures forall i :: |DropTrailingEmpty(ss)| <= i < |ss| ==> ss[i] == []
    ensures DropTrailingEmpty(ss) == [] || ss[|DropTrailingEmpty(ss)| - 1] != []
  {
    if ss != [] && ss[|ss| - 1] == [] {
      DropTrailingEmptyShape(ss[..|ss| - 1]);
      var k := |DropTrailingEmpty(ss[..|ss| - 1])|;
      assert ss[..|ss| - 1][..k] == ss[..k];
    } else {
      assert ss[..|ss|] == ss;
    }
  }

  /** What String.split(RegexWordSplit) promises: no word holds a delimiter, only the first word
      can be empty (when the string starts with a delimiter), and the words concatenate to the
      non-delimiter characters of the input, so nothing else is lost. */
  lemma SplitWordsShape(s: string)
    ensures forall w, c :: w in SplitWords(s) && c in w ==> !IsWordDelimiter(c)
    ensures forall i :: 0 < i < |SplitWords(s)| ==> SplitWords(s)[i] != []
    ensures Concat(SplitWords(s)) == NonDelimiters(s)
  {
    if s == [] {
      assert Concat([[]]) == [] + Concat([]);
    } else {
      PiecesShape(s, []);
      DropTrailingEmptyShape(Pieces(s, []));
      SplitWordsConcat(s);
      SplitWordsWords(s);
    }
  }

  lemma SplitWordsConcat(s: string)
    requires s != []
    ensures Concat(SplitWords(s)) == NonDelimiters(s)
  {
    var ps := Pieces(s, []);
    PiecesShape(s, []);
    DropTrailingEmptyShape(ps);
    var k := |DropTrailingEmpty(ps)|;
    assert SplitWords(s) == ps[..k];
    assert ps == ps[..k] + ps[k..];
    ConcatAppend(ps[..k], ps[k..]);
    assert forall i :: 0 <= i < |ps[k..]| ==> ps[k..][i] == ps[k + i];
    ConcatOfEmpties(ps[k..]);
    calc {
      Concat(SplitWords(s));
      Concat(ps[..k]) + Concat(ps[k..]);
      Concat(ps);
      [] + NonDelimiters(s);
    }
  }

  lemma SplitWordsWords(s: string)
    requires s != []
    ensures forall w, c :: w in SplitWords(s) && c in w ==> !IsWordDelimiter(c)
    ensures forall i :: 0 < i < |SplitWords(s)| ==> SplitWords(s)[i] != []
  {
    var ps := Pieces(s, []);
    PiecesShape(s, []);
    DropTrailingEmptyShape(ps);
    var k := |DropTrailingEmpty(ps)|;
    assert SplitWords(s) == ps[..k];
    forall i | 0 < i < k
      ensures ps[..k][i] != []
    {
      if i < |ps| - 1 {
      } else {
        assert i == k - 1;
      }
    }
    forall w, c | w in SplitWords(s) && c in w
      ensures !IsWordDelimiter(c)
    {
      assert w in ps;
    }
  }

  lemma {:induction false} ConcatOfEmpties(ss: seq<string>)
    requires forall i :: 0 <= i < |ss| ==> ss[i] == []
    ensures Concat(ss) == []
  {
    if ss != [] {
      ConcatOfEmpties(ss[1..]);
    }
  }

  /** A title that starts with a delimiter and still holds a word keeps the leading empty word, so
      the empty string becomes a title-word key, as in Java. */
  lemma LeadingDelimiterGivesEmptyWord(s: string)
    requires s != [] && IsWordDelimiter(s[0])
    requires exists i :: 0 <= i < |s| && !IsWordDelimiter(s[i])
    ensures |SplitWords(s)| >= 2 && SplitWords(s)[0] == []
  {
    var rest := DropDelimiters(s[1..]);
    var i :| 0 <= i < |s| && !IsWordDelimiter(s[i]);
    DropDelimitersShape(s[1..]);
    assert rest != [];
    PiecesFirst(rest, []);
    assert Pieces(s, []) == [[]] + Pieces(rest, []);
    var ps := Pieces(s, []);
    assert ps[1] != [];
    DropTrailingEmptyShape(ps);
  }

  // ---------------------------------------------------------------------------------------------
  // Lower-casing commutes with the split, because no delimiter is a letter.

  function LowerAll(ss: seq<string>): seq<string> {
    seq(|ss|, i requires 0 <= i < |ss| => LowerStr(ss[i]))
  }

  lemma DelimiterIgnoresCase(c: char)
    ensures IsWordDelimiter(Lower(c)) == IsWordDelimiter(c)
  {
  }

  lemma {:induction false} DropDelimitersLower(s: string)
    ensures DropDelimiters(LowerStr(s)) == LowerStr(DropDelimiters(s))
  {
    if s != [] {
      DelimiterIgnoresCase(s[0]);
      assert LowerStr(s)[1..] == LowerStr(s[1..]);
      if IsWordDelimiter(s[0]) {
        DropDelimitersLower(s[1..]);
      }
    }
  }

  lemma LowerStrAppend(a: string, b: string)
    ensures LowerStr(a + b) == LowerStr(a) + LowerStr(b)
  {
  }

  lemma LowerAllCons(a: string, b: seq<string>)
    ensures LowerAll([a] + b) == [LowerStr(a)] + LowerAll(b)
  {
  }

  lemma {:induction false} PiecesLower(s: string, cur: string)
    ensures Pieces(LowerStr(s), LowerStr(cur)) == LowerAll(Pieces(s, cur))
    decreases |s|
  {
    if s == [] {
      assert LowerStr(s) == [];
    } else {
      var ls := LowerStr(s);
      assert ls != [] && ls[0] == Lower(s[0]);
      DelimiterIgnoresCase(s[0]);
      assert ls[1..] == LowerStr(s[1..]);
      if IsWordDelimiter(s[0]) {
        var rest := DropDelimiters(s[1..]);
        DropDelimitersLower(s[1..]);
        PiecesLower(rest, []);
        var tail := Pieces(rest, []);
        assert LowerStr([]) == [];
        calc {
          Pieces(ls, LowerStr(cur));
          [LowerStr(cur)] + Pieces(DropDelimiters(ls[1..]), []);
          [LowerStr(cur)] + Pieces(LowerStr(rest), LowerStr([]));
          [LowerStr(cur)] + LowerAll(tail);
          { LowerAllCons(cur, tail); }
          LowerAll([cur] + tail);
        }
      } else {
        PiecesLower(s[1..], cur + [s[0]]);
        LowerStrAppend(cur, [s[0]]);
        assert LowerStr([s[0]]) == [ls[0]];
        calc {
          Pieces(ls, LowerStr(cur));
          Pieces(ls[1..], LowerStr(cur) + [ls[0]]);
          Pieces(LowerStr(s[1..]), LowerStr(cur + [s[0]]));
        }
      }
    }
  }

  lemma {:induction false} DropTrailingEmptyLower(ss: seq<string>)
    ensures DropTrailingEmpty(LowerAll(ss)) == LowerAll(DropTrailingEmpty(ss))
  {
    if ss != [] {
      assert LowerAll(ss)[..|ss| - 1] == LowerAll(ss[..|ss| - 1]);
      if ss[|ss| - 1] == [] {
        DropTrailingEmptyLower(ss[..|ss| - 1]);
      } else {
        assert LowerStr(ss[|ss| - 1]) != [];
      }
    }
  }

  /** Splitting the lower-cased title yields the lower-cased words of the title: this is why the
      title-word index, keyed by the words of the lower-cased title, agrees with the consistency
      check that splits the title as stored and compares ignoring case. */
  lemma SplitWordsLower(s: string)
    ensures SplitWords(LowerStr(s)) == LowerAll(SplitWords(s))
  {
    if s != [] {
      PiecesLower(s, []);
      assert LowerStr([]) == [];
      DropTrailingEmptyLower(Pieces(s, []));
    }
  }

  // ---------------------------------------------------------------------------------------------
  // java.util.StringTokenizer with one delimiter character: the maximal non-empty runs of other
  // characters.

  function TokensFrom(s: string, d: char, cur: string): seq<string>
    decreases |s|
  {
    if s == [] then (if cur == [] then [] else [cur])
    else if s[0] == d then (if cur == [] then [] else [cur]) + TokensFrom(s[1..], d, [])
    else TokensFrom(s[1..], d, cur + [s[0]])
  }

  /** The tokens a StringTokenizer(s, [d]) hands out, in order: each is non-empty and free of the
      delimiter. */
  function Tokens(s: string, d: char): (r: seq<string>)
    ensures forall i :: 0 <= i < |r| ==> r[i] != [] && d !in r[i]
  {
    TokensFromShape(s, d, []);
    TokensFrom(s, d, [])
  }

  lemma {:induction false} TokensFromShape(s: string, d: char, cur: string)
    requires d !in cur
    ensures forall t :: t in TokensFrom(s, d, cur) ==> t != [] && d !in t
    decreases |s|
  {
    if s != [] {
      if s[0] == d {
        TokensFromShape(s[1..], d, []);
      } else {
        TokensFromShape(s[1..], d, cur + [s[0]]);
      }
    }
  }

  lemma {:induction false} TokensFromSplit(a: string, b: string, d: char, cur: string)
    ensures TokensFrom(a + [d] + b, d, cur) == TokensFrom(a, d, cur) + Tokens(b, d)
    decreases |a|
  {
    if a == [] {
      assert ([d] + b)[1..] == b;
    } else {
      assert (a + [d] + b)[1..] == a[1..] + [d] + b;
      if a[0] == d {
        TokensFromSplit(a[1..], b, d, []);
      } else {
        TokensFromSplit(a[1..], b, d, cur + [a[0]]);
      }
    }
  }

  /** Tokenizing splits at every delimiter: the tokens of `a d b` are those of `a` then those of `b`. */
  lemma TokensSplit(a: string, b: string, d: char)
    ensures Tokens(a + [d] + b, d) == Tokens(a, d) + Tokens(b, d)
  {
    TokensFromSplit(a, b, d, []);
  }

  lemma {:induction false} TokensFromSingle(s: string, d: char, cur: string)
    requires d !in s && cur + s != []
    ensures TokensFrom(s, d, cur) == [cur + s]
    decreases |s|
  {
    if s == [] {
      assert cur + s == cur;
    } else {
      assert s[0] in s;
      assert cur + s == (cur + [s[0]]) + s[1..];
      TokensFromSingle(s[1..], d, cur + [s[0]]);
    }
  }

  /** A non-empty string free of the delimiter is one token. */
  lemma TokensSingle(s: string, d: char)
    requires s != [] && d !in s
    ensures Tokens(s, d) == [s]
  {
    TokensFromSingle(s, d, []);
    assert [] + s == s;
  }
}
