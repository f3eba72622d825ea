/**
 * Author names (Publication.java). A name is written "Last, Given Middle" and kept internally as
 * the pair (last name, given names); it is printed either in full ("King, Martin Luther") or with
 * initials ("M. L. King"), the form under which the author index files it.
 */
module Names {
  import opened Wrappers
  import opened Text

  /** The internal representation of an author name: last name and given (first and middle) names. */
  datatype Name = Name(last: string, given: string)

  datatype NameError = AuthorNameNotValid

  predicate IsLetter(c: char) {
    'a' <= c <= 'z' || 'A' <= c <= 'Z'
  }

  /** The last-name rule: one or more letters, "[a-zA-Z]+". */
  predicate IsLastName(s: string) {
    s != [] && forall i :: 0 <= i < |s| ==> IsLetter(s[i])
  }

  /** The given-names rule: one or more letters, blanks or dots, "[a-zA-Z .]+", with no two dots
      in a row. */
  predicate IsGivenNames(s: string) {
    && s != []
    && (forall i :: 0 <= i < |s| ==> IsLetter(s[i]) || s[i] == ' ' || s[i] == '.')
    && (forall i :: 1 <= i < |s| ==> !(s[i - 1] == '.' && s[i] == '.'))
  }

  /** The comma-separated parts of a name after trimming, blank parts (from repeated commas)
      skipped. */
  function NameParts(toks: seq<string>): (r: seq<string>)
    ensures |r| <= |toks|
    ensures forall i :: 0 <= i < |r| ==> r[i] != [] && HasTrimmedEnds(r[i])
  {
    if toks == [] then []
    else if Trim(toks[0]) == [] then NameParts(toks[1..])
    else
      [Trim(toks[0])] + NameParts(toks[1..])
  }

  /** The syntax of a valid author name: exactly two non-blank comma-separated parts, a last name
      of letters and given names of letters, blanks and single dots. */
  predicate ValidAuthorName(name: string) {
    var parts := NameParts(Tokens(name, ','));
    |parts| == 2 && IsLastName(parts[0]) && IsGivenNames(parts[1])
  }

  /** The scan of isValidAuthorName over the comma tokens: it counts the non-blank parts and checks
      the first as a last name and every later one as given names, stopping at the first failure. */
  function ScanNameParts(toks: seq<string>, count: nat, ok: bool): (nat, bool)
  {
    if toks == [] || !ok then (count, ok)
    else if Trim(toks[0]) == [] then ScanNameParts(toks[1..], count, ok)
    else
      var part := Trim(toks[0]);
      ScanNameParts(toks[1..], count + 1, if count + 1 == 1 then IsLastName(part) else IsGivenNames(part))
  }

  /** Publication.isValidAuthorName: null is not a valid name, otherwise the scan must succeed and
      have seen exactly two parts. */
  function IsValidAuthorName(name: Option<string>): (r: bool)
    ensures r <==> name.Some? && ValidAuthorName(name.value)
  {
    if name.None? then false
    else
      var (count, ok) := ScanNameParts(Tokens(name.value, ','), 0, true);
      ScanNamePartsCorrect(Tokens(name.value, ','), 0);
      ok && count == 2
  }

  /** What a scan that starts with `count` parts already seen still needs from the parts ahead. */
  predicate ScanAccepts(parts: seq<string>, count: nat) {
    if count == 0 then |parts| == 2 && IsLastName(parts[0]) && IsGivenNames(parts[1])
    else if count == 1 then |parts| == 1 && IsGivenNames(parts[0])
    else if count == 2 then parts == []
    else false
  }

  lemma {:induction false} ScanNamePartsCorrect(toks: seq<string>, count: nat)
    ensures var (c, ok) := ScanNameParts(toks, count, true);
      ok && c == 2 <==> ScanAccepts(NameParts(toks), count)
    decreases |toks|
  {
    if toks != [] {
      var part := Trim(toks[0]);
      if part == [] {
        ScanNamePartsCorrect(toks[1..], count);
      } else {
        var check := if count + 1 == 1 then IsLastName(part) else IsGivenNames(part);
        assert NameParts(toks) == [part] + NameParts(toks[1..]);
        if check {
          ScanNamePartsCorrect(toks[1..], count + 1);
        } else {
          assert ScanNameParts(toks[1..], count + 1, check) == (count + 1, false);
        }
      }
    }
  }

  /** A name as convertNameToIntRepr leaves it: a letters-only last name and trimmed given names. */
  predicate WellFormed(n: Name) {
    IsLastName(n.last) && IsGivenNames(n.given) && HasTrimmedEnds(n.given)
  }

  /** convertNameToIntRepr: a valid name becomes its two non-blank parts; any other name is
      refused. */
  function ConvertName(name: Option<string>): (r: Result<Name, NameError>)
    ensures r.Success? ==> WellFormed(r.value)
  {
    if !IsValidAuthorName(name) then Failure(AuthorNameNotValid)
    else
      var parts := NameParts(Tokens(name.value, ','));
      Success(Name(parts[0], parts[1]))
  }

  /** convertNameToIntRepr accepts exactly the names isValidAuthorName accepts. */
  lemma ConvertNameAccepts(name: Option<string>)
    ensures ConvertName(name).Success? <==> name.Some? && ValidAuthorName(name.value)
  {
  }

  /** getAuthorAt: the default name format "Last, Given". */
  function FullName(n: Name): string {
    n.last + ", " + n.given
  }

  lemma LettersHaveNoComma(s: string)
    requires forall i :: 0 <= i < |s| ==> IsLetter(s[i]) || s[i] == ' ' || s[i] == '.'
    ensures ',' !in s
  {
    assert forall i :: 0 <= i < |s| ==> s[i] != ',';
  }

  /** The default format is itself a valid name, and converting it gives the name back: a name
      survives the trip through its printed form. */
  lemma FullNameRoundTrip(n: Name)
    requires WellFormed(n)
    ensures ValidAuthorName(FullName(n))
    ensures ConvertName(Some(FullName(n))) == Success(n)
  {
    var tail := [' '] + n.given;
    assert FullName(n) == n.last + [','] + tail;
    LettersHaveNoComma(n.last);
    LettersHaveNoComma(tail);
    TokensSplit(n.last, tail, ',');
    TokensSingle(n.last, ',');
    TokensSingle(tail, ',');
    assert Tokens(FullName(n), ',') == [n.last, tail];
    TrimOfTrimmed(n.last);
    TrimSpacePrefix(n.given);
    assert NameParts([n.last, tail]) == [n.last] + NameParts([tail]);
    assert NameParts([tail]) == [n.given] + NameParts([]);
  }

  /** Converting a name and printing it in the default format is a fixed point of conversion. */
  lemma ConvertNameRoundTrip(name: Option<string>)
    requires ConvertName(name).Success?
    ensures ConvertName(Some(FullName(ConvertName(name).value))) == ConvertName(name)
  {
    FullNameRoundTrip(ConvertName(name).value);
  }

  // ---------------------------------------------------------------------------------------------
  // Initials (getAuthorWithInitialAt)

  /** For each given-name token, its first letter in upper case followed by ". ". */
  function InitialsOf(toks: seq<string>): (r: string)
    requires forall i :: 0 <= i < |toks| ==> toks[i] != []
    ensures |r| == 3 * |toks|
  {
    if toks == [] then [] else [Upper(toks[0][0]), '.', ' '] + InitialsOf(toks[1..])
  }

  /** Each given-name token contributes its upper-cased first letter, a full stop and a blank. */
  lemma {:induction false} InitialsOfShape(toks: seq<string>)
    requires forall i :: 0 <= i < |toks| ==> toks[i] != []
    ensures forall i :: 0 <= i < |toks| ==>
      InitialsOf(toks)[3 * i] == Upper(toks[i][0]) && InitialsOf(toks)[3 * i + 1] == '.' && InitialsOf(toks)[3 * i + 2] == ' '
  {
    if toks != [] {
      var rest := InitialsOf(toks[1..]);
      InitialsOfShape(toks[1..]);
      forall i | 0 <= i < |toks|
        ensures InitialsOf(toks)[3 * i] == Upper(toks[i][0]) && InitialsOf(toks)[3 * i + 1] == '.' && InitialsOf(toks)[3 * i + 2] == ' '
      {
        if i > 0 {
          var j := i - 1;
          assert toks[i] == toks[1..][j];
          assert InitialsOf(toks)[3 * i] == rest[3 * j] && InitialsOf(toks)[3 * i + 1] == rest[3 * j + 1] && InitialsOf(toks)[3 * i + 2] == rest[3 * j + 2];
        }
      }
    }
  }

  /** The initials format of a name, e.g. "M. L. King": the initial of each blank-separated given
      name in upper case followed by ". ", then the last name. */
  function Initials(n: Name): string {
    InitialsOf(Tokens(n.given, ' ')) + n.last
  }

  /** The initials key: one "X. " per given name, its first letter in upper case, then the last
      name. */
  lemma InitialsShape(n: Name)
    ensures |Initials(n)| == 3 * |Tokens(n.given, ' ')| + |n.last|
    ensures Initials(n)[3 * |Tokens(n.given, ' ')|..] == n.last
    ensures forall i :: 0 <= i < |Tokens(n.given, ' ')| ==>
      Initials(n)[3 * i] == Upper(Tokens(n.given, ' ')[i][0]) && Initials(n)[3 * i + 1] == '.' && Initials(n)[3 * i + 2] == ' '
  {
    InitialsOfShape(Tokens(n.given, ' '));
  }

  /** Two different authors can share an initials key: the author index keeps one entry for both. */
  lemma SharedInitialsKey()
    ensures Name("Adams", "Douglas") != Name("Adams", "Dan")
    ensures Initials(Name("Adams", "Douglas")) == Initials(Name("Adams", "Dan")) == "D. Adams"
  {
    TokensSingle("Douglas", ' ');
    TokensSingle("Dan", ' ');
  }

  // ---------------------------------------------------------------------------------------------
  // Comparison of author lists (isEqualTo)

  /** The first position of `x` in `s`. */
  function IndexOf(s: seq<string>, x: string): (r: Option<nat>)
    ensures r.None? <==> x !in s
    ensures r.Some? ==> r.value < |s| && s[r.value] == x && x !in s[..r.value]
  {
    if s == [] then None
    else if s[0] == x then Some(0)
    else match IndexOf(s[1..], x)
      case None => None
      case Some(j) =>
        assert s[..j + 1] == [s[0]] + s[1..][..j];
        Some(j + 1)
  }

  /** The first position of `x` is the one before which `x` does not occur. */
  lemma FirstIndex(s: seq<string>, x: string, j: nat)
    requires j < |s| && s[j] == x && x !in s[..j]
    ensures IndexOf(s, x) == Some(j)
  {
  }

  /** The author loop of isEqualTo: take the first author of `a`, find its first match in `b`,
      strike both out and start over; at the end no author of `b` may be left. */
  function SameAuthors(a: seq<string>, b: seq<string>): bool
    decreases |a|
  {
    if a == [] then b == []
    else match IndexOf(b, a[0])
      case None => false
      case Some(j) => SameAuthors(a[1..], b[..j] + b[j + 1..])
  }

  /** One round of the author loop: a first author of `a` matched at `j` in `b` is struck from both
      lists. */
  lemma SameAuthorsStrike(a: seq<string>, b: seq<string>, j: nat)
    requires a != [] && j < |b| && b[j] == a[0] && a[0] !in b[..j]
    ensures SameAuthors(a, b) == SameAuthors(a[1..], b[..j] + b[j + 1..])
  {
    FirstIndex(b, a[0], j);
  }

  /** A first author of `a` that has no match in `b` makes the lists differ. */
  lemma SameAuthorsUnmatched(a: seq<string>, b: seq<string>)
    requires a != [] && a[0] !in b
    ensures !SameAuthors(a, b)
  {
  }

  /** The author loop compares the two lists as multisets: every name must occur equally often in
      both, so identically named authors count separately. */
  lemma {:induction false} SameAuthorsIsMultisetEquality(a: seq<string>, b: seq<string>)
    ensures SameAuthors(a, b) <==> multiset(a) == multiset(b)
    decreases |a|
  {
    if a == [] {
      if b != [] {
        assert b[0] in multiset(b);
      }
    } else {
      assert a == [a[0]] + a[1..];
      match IndexOf(b, a[0])
      case None =>
        assert a[0] in multiset(a);
        assert a[0] !in multiset(b);
      case Some(j) =>
        var rest := b[..j] + b[j + 1..];
        assert b == b[..j] + [b[j]] + b[j + 1..];
        assert multiset(b) == multiset(rest) + multiset{a[0]};
        assert multiset(a) == multiset(a[1..]) + multiset{a[0]};
        assert multiset(a[1..]) == multiset(a) - multiset{a[0]};
        assert multiset(rest) == multiset(b) - multiset{a[0]};
        SameAuthorsIsMultisetEquality(a[1..], rest);
    }
  }

  /** getAllAuthors: the default format of every author, in order. */
  function FullNames(authors: seq<Name>): (r: seq<string>)
    ensures |r| == |authors|
    ensures forall i :: 0 <= i < |authors| ==> r[i] == FullName(authors[i])
  {
    seq(|authors|, i requires 0 <= i < |authors| => FullName(authors[i]))
  }

  // ---------------------------------------------------------------------------------------------
  // convertNameToIntRepr as written

  /** convertNameToIntRepr as the source writes it: after the validity check it takes the first two
      comma tokens, blank or not, although the check skipped blank tokens. */
  function ConvertNameAsWritten(name: Option<string>): (r: Result<Name, NameError>)
    ensures r.Success? <==> IsValidAuthorName(name)
  {
    if !IsValidAuthorName(name) then Failure(AuthorNameNotValid)
    else
      var toks := Tokens(name.value, ',');
      Success(Name(Trim(toks[0]), Trim(toks[1])))
  }

  lemma ExampleTokens()
    ensures Tokens("Smith, ,John", ',') == ["Smith", " ", "John"]
    ensures Tokens("Smith, ", ',') == ["Smith", " "]
  {
    assert "Smith, ,John" == "Smith" + [','] + (" " + [','] + "John");
    TokensSplit("Smith", " " + [','] + "John", ',');
    TokensSplit(" ", "John", ',');
    TokensSingle("Smith", ',');
    TokensSingle(" ", ',');
    TokensSingle("John", ',');
    assert "Smith, " == "Smith" + [','] + " ";
    TokensSplit("Smith", " ", ',');
  }

  lemma ExampleParts()
    ensures NameParts(["Smith", " ", "John"]) == ["Smith", "John"]
    ensures NameParts(["Smith", " "]) == ["Smith"]
  {
    assert Trim(" ") == [] by {
      assert TrimLeft(" ") == TrimLeft(" "[1..]);
    }
    TrimOfTrimmed("Smith");
    TrimOfTrimmed("John");
    assert NameParts(["John"]) == ["John"] + NameParts([]);
    assert NameParts([" ", "John"]) == NameParts(["John"]);
    assert NameParts(["Smith", " ", "John"]) == ["Smith"] + NameParts([" ", "John"]);
    assert NameParts([" "]) == NameParts([]);
    assert NameParts(["Smith", " "]) == ["Smith"] + NameParts([" "]);
  }

  lemma ExampleNameRules()
    ensures IsLastName("Smith") && IsGivenNames("John")
  {
  }

  lemma ExampleValidity()
    ensures ValidAuthorName("Smith, ,John")
  {
    ExampleTokens();
    ExampleParts();
    ExampleNameRules();
  }

  lemma ExampleInvalidity()
    ensures !ValidAuthorName("Smith, ")
  {
    ExampleTokens();
    ExampleParts();
    assert |NameParts(Tokens("Smith, ", ','))| == 1;
  }

  /** "Smith, ,John" is valid (the blank part is skipped), but the source stores it as last name
      "Smith" with empty given names, whose default format "Smith, " is no longer a valid name;
      the corrected conversion keeps "John". */
  lemma BlankPartLosesGivenName()
    ensures ValidAuthorName("Smith, ,John")
    ensures ConvertNameAsWritten(Some("Smith, ,John")) == Success(Name("Smith", ""))
    ensures !ValidAuthorName(FullName(Name("Smith", "")))
    ensures ConvertName(Some("Smith, ,John")) == Success(Name("Smith", "John"))
  {
    ExampleValidity();
    ExampleInvalidity();
    ExampleTokens();
    ExampleParts();
    assert Trim(" ") == [] by {
      assert TrimLeft(" ") == TrimLeft(" "[1..]);
    }
    TrimOfTrimmed("Smith");
    assert FullName(Name("Smith", "")) == "Smith, ";
  }
}
