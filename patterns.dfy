/**
 * The name transformers of renamer/patterns.py.  Each maps the current file
 * name (pathlib's `name`) and the user's parameters to a proposed new name,
 * by slicing and concatenating the stem and the extension.
 */
module Patterns {
  import opened PathName
  import opened Numerals
  import opened Text

  // ---------------------------------------------------------------- prefix and suffix

  /** add_prefix: the prefix goes in front of the whole name, extension included. */
  function AddPrefix(name: seq<char>, prefix: seq<char>): (r: seq<char>)
    ensures |r| == |prefix| + |name| && r[..|prefix|] == prefix && r[|prefix|..] == name
  {
    prefix + name
  }

  /** A name that has an extension keeps it under a prefix; the prefix joins the stem. */
  lemma PrefixKeepsExtension(name: seq<char>, prefix: seq<char>)
    requires HasExtension(name)
    ensures Stem(AddPrefix(name, prefix)) == prefix + Stem(name)
    ensures Extension(AddPrefix(name, prefix)) == Extension(name)
  {
    PrefixSplit(prefix, Stem(name), Extension(name));
  }

  lemma PrefixSplit(prefix: seq<char>, stem: seq<char>, ext: seq<char>)
    requires stem != [] && IsExtension(ext)
    ensures Stem(prefix + (stem + ext)) == prefix + stem && Extension(prefix + (stem + ext)) == ext
  {
    assert prefix + (stem + ext) == (prefix + stem) + ext;
    SplitJoin(prefix + stem, ext);
  }

  /** add_suffix: the suffix goes between the stem and the extension. */
  function AddSuffix(name: seq<char>, suffix: seq<char>): (r: seq<char>)
    ensures suffix == [] ==> r == name
    ensures !HasExtension(name) ==> r == name + suffix
    ensures |r| == |name| + |suffix|
  {
    Stem(name) + suffix + Extension(name)
  }

  /** After add_suffix the stem has grown by the suffix and the extension is the old one. */
  lemma SuffixGoesBeforeExtension(name: seq<char>, suffix: seq<char>)
    requires HasExtension(name)
    ensures Stem(AddSuffix(name, suffix)) == Stem(name) + suffix
    ensures Extension(AddSuffix(name, suffix)) == Extension(name)
  {
    SplitJoin(Stem(name) + suffix, Extension(name));
  }

  // ---------------------------------------------------------------- replace

  /** replace_text, literal and case-sensitive: Python's `name.replace(find, repl)`. */
  function ReplaceText(name: seq<char>, find: seq<char>, repl: seq<char>): (r: seq<char>)
    ensures find != [] && !Occurs(name, find) ==> r == name
    ensures find == repl ==> r == name
    ensures find == [] ==> |r| == |name| + (|name| + 1) * |repl|
  {
    ReplaceAbsent(name, find, repl);
    ReplaceWithItself(name, find);
    Replace(name, find, repl)
  }

  /**
   * An empty pattern puts the replacement before every character and once
   * more at the end: block i is `repl` and then `name[i]`.
   */
  lemma ReplaceEmptyPattern(name: seq<char>, repl: seq<char>)
    ensures var r := ReplaceText(name, [], repl);
      (forall i :: 0 <= i < |name| ==> BlockAt(r, i * (|repl| + 1), repl, name[i])) &&
      |name| * (|repl| + 1) <= |r| && r[|name| * (|repl| + 1)..] == repl
  {
    InterleaveLayout(name, repl);
  }

  // ---------------------------------------------------------------- number sequence

  /** number_sequence: the counter `start + index`, zero-padded, after the prefix. */
  function NumberSequence(name: seq<char>, index: int, start: int, digits: int,
                          prefix: seq<char>, keepOriginal: bool): (r: seq<char>)
  {
    var number := ZFill(IntToString(start + index), digits);
    if keepOriginal then prefix + number + "_" + Stem(name) + Extension(name)
    else prefix + number + Extension(name)
  }

  /**
   * `r` is `prefix`, then a numeral that reads back as `value`, is as long
   * as zfill makes it (`width`, or str(value) when that is longer) and starts
   * with '-' exactly when `value` is negative, then `tail`.  Length, sign and
   * value leave one numeral: zero, in particular, is all '0' digits.
   */
  predicate Numbered(r: seq<char>, prefix: seq<char>, width: int, value: int, tail: seq<char>) {
    |prefix| + |tail| <= |r| && r[..|prefix|] == prefix && r[|r| - |tail|..] == tail &&
    var number := r[|prefix|..|r| - |tail|];
    |number| == ZFillWidth(width, value) && IsNumeral(number) && ReadInt(number) == value &&
    (number[0] == '-' <==> value < 0)
  }

  /** The length of `str(value).zfill(width)`. */
  function ZFillWidth(width: int, value: int): int {
    if width > |IntToString(value)| then width else |IntToString(value)|
  }

  /**
   * The name number_sequence proposes is the prefix, the numeral zfill makes
   * (exactly max(`digits`, len(str(n))) long, signed only when n is negative,
   * reading back as n = `start + index`), and then "_" and the
   * whole old name when `keepOriginal` is set, or only the old extension
   * otherwise.  An extension the old name had is kept.
   */
  lemma NumberSequenceShape(name: seq<char>, index: int, start: int, digits: int,
                            prefix: seq<char>, keepOriginal: bool)
    ensures var r := NumberSequence(name, index, start, digits, prefix, keepOriginal);
      Numbered(r, prefix, digits, start + index, if keepOriginal then "_" + name else Extension(name)) &&
      (HasExtension(name) ==> Extension(r) == Extension(name))
  {
    var number := ZFill(IntToString(start + index), digits);
    PaddedNumeral(start + index, digits);
    NumberedName(name, number, digits, start + index, prefix, keepOriginal);
  }

  /** The shape of number_sequence's result, for any numeral in place of the padded counter. */
  lemma NumberedName(name: seq<char>, number: seq<char>, width: int, value: int,
                     prefix: seq<char>, keepOriginal: bool)
    requires |number| == ZFillWidth(width, value) && IsNumeral(number) && ReadInt(number) == value
    requires number[0] == '-' <==> value < 0
    ensures var r := if keepOriginal then prefix + number + "_" + Stem(name) + Extension(name)
                     else prefix + number + Extension(name);
      Numbered(r, prefix, width, value, if keepOriginal then "_" + name else Extension(name)) &&
      (HasExtension(name) ==> Extension(r) == Extension(name))
  {
    var tail := if keepOriginal then "_" + name else Extension(name);
    NumberSequenceJoin(name, number, prefix, keepOriginal);
    NumberedJoin(prefix, number, tail, width, value);
    if HasExtension(name) {
      NumberSequenceExtension(name, number, prefix, keepOriginal);
    }
  }

  lemma NumberedJoin(prefix: seq<char>, number: seq<char>, tail: seq<char>, width: int, value: int)
    requires |number| == ZFillWidth(width, value) && IsNumeral(number) && ReadInt(number) == value
    requires number[0] == '-' <==> value < 0
    ensures Numbered(prefix + number + tail, prefix, width, value, tail)
  {
    var r := prefix + number + tail;
    assert r[..|prefix|] == prefix && r[|r| - |tail|..] == tail;
    assert r[|prefix|..|r| - |tail|] == number;
  }

  lemma NumberSequenceJoin(name: seq<char>, number: seq<char>, prefix: seq<char>, keepOriginal: bool)
    ensures (if keepOriginal then prefix + number + "_" + Stem(name) + Extension(name)
             else prefix + number + Extension(name))
         == prefix + number + (if keepOriginal then "_" + name else Extension(name))
  {
    if keepOriginal {
      var stem, ext := Stem(name), Extension(name);
      assert prefix + number + "_" + stem + ext == prefix + number + ("_" + (stem + ext));
    }
  }

  lemma NumberSequenceExtension(name: seq<char>, number: seq<char>, prefix: seq<char>, keepOriginal: bool)
    requires HasExtension(name) && number != []
    ensures var r := if keepOriginal then prefix + number + "_" + Stem(name) + Extension(name)
                     else prefix + number + Extension(name);
      Extension(r) == Extension(name)
  {
    var stem, ext := Stem(name), Extension(name);
    var front := prefix + number + (if keepOriginal then "_" + stem else []);
    assert (if keepOriginal then prefix + number + "_" + stem + ext else prefix + number + ext) == front + ext;
    SplitJoin(front, ext);
  }

  /** The worked example: start 1, three digits, prefix "file_", first file of the batch. */
  lemma NumberSequenceExample()
    ensures NumberSequence("a.txt", 0, 1, 3, "file_", false) == "file_001.txt"
  {
    assert "a.txt"[..4] == "a.tx" && "a.tx"[..3] == "a.t" && "a.t"[..2] == "a.";
    assert RFind("a.txt", '.') == 1;
    assert Decimal(1) == "1";
    assert Zeros(2) == "00";
  }

  /** The second file of the same batch. */
  lemma NumberSequenceSecondExample()
    ensures NumberSequence("b.jpg", 1, 1, 3, "file_", false) == "file_002.jpg"
  {
    assert "b.jpg"[..4] == "b.jp" && "b.jp"[..3] == "b.j" && "b.j"[..2] == "b.";
    assert RFind("b.jpg", '.') == 1;
    assert Decimal(2) == "2";
    assert Zeros(2) == "00";
  }

  /** A counter that is not negative is written with digits only, so zero pads to zeros. */
  lemma NumberedUnsigned(r: seq<char>, prefix: seq<char>, width: int, value: int, tail: seq<char>)
    requires Numbered(r, prefix, width, value, tail) && value >= 0
    ensures AllDigits(r[|prefix|..|r| - |tail|])
    ensures value == 0 ==> forall j :: |prefix| <= j < |r| - |tail| ==> r[j] == '0'
  {
    var number := r[|prefix|..|r| - |tail|];
    if value == 0 {
      forall j | |prefix| <= j < |r| - |tail|
        ensures r[j] == '0'
      {
        assert r[j] == number[j - |prefix|];
        ZeroDigits(number, j - |prefix|);
      }
    }
  }

  /** The counter 0 (start 0, first file) is written as `digits` zeros. */
  lemma NumberSequenceZeroExample()
    ensures NumberSequence("a.txt", 0, 0, 3, "p", false) == "p000.txt"
  {
    assert "a.txt"[..4] == "a.tx" && "a.tx"[..3] == "a.t" && "a.t"[..2] == "a.";
    assert RFind("a.txt", '.') == 1;
    assert Decimal(0) == "0";
    assert Zeros(2) == "00";
  }

  // ---------------------------------------------------------------- change case

  /** The stem mapping change_case applies for each `case_type`; an unknown one leaves the stem. */
  function CaseMapped(caseType: seq<char>, stem: seq<char>): (r: seq<char>)
    ensures |r| == |stem|
    ensures forall j :: 0 <= j < |stem| ==> (r[j] == '.' <==> stem[j] == '.')
    ensures caseType == "lower" ==> r == Lower(stem)
    ensures caseType == "upper" ==> r == Upper(stem)
    ensures caseType == "title" ==> r == Title(stem)
    ensures caseType == "sentence" ==> r == Capitalize(stem)
    ensures caseType != "lower" && caseType != "upper" && caseType != "title" && caseType != "sentence" ==> r == stem
  {
    if caseType == "lower" then Lower(stem)
    else if caseType == "upper" then Upper(stem)
    else if caseType == "title" then Title(stem)
    else if caseType == "sentence" then Capitalize(stem)
    else stem
  }

  /**
   * What each case mapping does letter by letter: only the case of ASCII
   * letters changes, and the letters end up lower-case ("lower"),
   * upper-case ("upper"), upper-case at the start of each word and
   * lower-case inside it ("title"), or upper-case first and lower-case
   * after ("sentence").
   */
  lemma CaseMappedLetters(caseType: seq<char>, stem: seq<char>)
    ensures var r := CaseMapped(caseType, stem);
      forall j :: 0 <= j < |stem| ==> LowerChar(r[j]) == LowerChar(stem[j])
    ensures caseType == "lower" ==>
      forall j :: 0 <= j < |stem| ==> !IsUpperLetter(CaseMapped(caseType, stem)[j])
    ensures caseType == "upper" ==>
      forall j :: 0 <= j < |stem| ==> !IsLowerLetter(CaseMapped(caseType, stem)[j])
    ensures caseType == "title" ==>
      forall j :: 0 <= j < |stem| ==> TitleCasedAt(CaseMapped(caseType, stem), stem, j)
    ensures caseType == "sentence" ==>
      forall j :: 0 <= j < |stem| ==>
        if j == 0 then !IsLowerLetter(CaseMapped(caseType, stem)[j])
        else !IsUpperLetter(CaseMapped(caseType, stem)[j])
  {
    if caseType == "lower" {
      LowerLetters(stem);
    } else if caseType == "upper" {
      UpperLetters(stem);
    } else if caseType == "title" {
      TitleLetters(stem);
    } else if caseType == "sentence" {
      CapitalizeLetters(stem);
    }
  }

  /** Every case mapping is idempotent. */
  lemma CaseMappedIdempotent(caseType: seq<char>, stem: seq<char>)
    ensures CaseMapped(caseType, CaseMapped(caseType, stem)) == CaseMapped(caseType, stem)
  {
    if caseType == "lower" {
      LowerIdempotent(stem);
    } else if caseType == "upper" {
      UpperIdempotent(stem);
    } else if caseType == "title" {
      TitleIdempotent(stem);
    } else if caseType == "sentence" {
      CapitalizeIdempotent(stem);
    }
  }

  /** change_case: the stem mapped by `caseType`, the extension always lower-cased. */
  function ChangeCase(name: seq<char>, caseType: seq<char>): (r: seq<char>)
    ensures |r| == |name|
  {
    CaseMapped(caseType, Stem(name)) + Lower(Extension(name))
  }

  /** change_case splits where the old name split: the mapped stem, then the lower-cased extension. */
  lemma ChangeCaseSplit(name: seq<char>, caseType: seq<char>)
    ensures Stem(ChangeCase(name, caseType)) == CaseMapped(caseType, Stem(name))
    ensures Extension(ChangeCase(name, caseType)) == Lower(Extension(name))
    ensures HasExtension(ChangeCase(name, caseType)) == HasExtension(name)
  {
    var stem, ext := Stem(name), Extension(name);
    var r := ChangeCase(name, caseType);
    var m := CaseMapped(caseType, stem);
    forall j | 0 <= j < |name| ensures name[j] == '.' <==> r[j] == '.' {
      if j < |stem| {
        assert name[j] == stem[j] && r[j] == m[j];
      } else {
        assert name[j] == ext[j - |stem|] && r[j] == Lower(ext)[j - |stem|];
      }
    }
    SameDotsSplit(name, r);
    assert Stem(r) + Extension(r) == r == m + Lower(ext);
  }

  /** Changing the case twice in the same mode is changing it once. */
  lemma ChangeCaseIdempotent(name: seq<char>, caseType: seq<char>)
    ensures ChangeCase(ChangeCase(name, caseType), caseType) == ChangeCase(name, caseType)
  {
    ChangeCaseSplit(name, caseType);
    CaseMappedIdempotent(caseType, Stem(name));
    LowerIdempotent(Extension(name));
  }

  // ---------------------------------------------------------------- date and time

  /** date_time_name, with the formatted timestamp given as `date`. */
  function DateTimeName(name: seq<char>, date: seq<char>, prefix: seq<char>,
                        suffix: seq<char>, keepOriginal: bool): (r: seq<char>)
  {
    var ext := Extension(name);
    if keepOriginal then prefix + date + "_" + Stem(name) + suffix + ext
    else prefix + date + suffix + ext
  }

  /**
   * The proposed name is the prefix, the date, optionally "_" and the old stem,
   * then the suffix; the old extension is kept whenever something stands in
   * front of it.
   */
  lemma DateTimeNameShape(name: seq<char>, date: seq<char>, prefix: seq<char>,
                          suffix: seq<char>, keepOriginal: bool)
    ensures var r := DateTimeName(name, date, prefix, suffix, keepOriginal);
      var front := prefix + date + (if keepOriginal then "_" + Stem(name) else []) + suffix;
      r == front + Extension(name) &&
      (HasExtension(name) && front != [] ==> Stem(r) == front && Extension(r) == Extension(name))
  {
    var stem, ext := Stem(name), Extension(name);
    var front := prefix + date + (if keepOriginal then "_" + stem else []) + suffix;
    var r := DateTimeName(name, date, prefix, suffix, keepOriginal);
    if keepOriginal {
      assert r == prefix + date + "_" + stem + suffix + ext;
      assert front == prefix + date + "_" + stem + suffix;
    } else {
      assert r == prefix + date + suffix + ext;
      assert front == prefix + date + suffix;
    }
    assert r == front + ext;
    if HasExtension(name) && front != [] {
      SplitJoin(front, ext);
    }
  }

  // ---------------------------------------------------------------- remove characters

  /** What remove_special keeps: word characters (as `isWord` judges), CJK ideographs U+4E00-U+9FFF, and '-'. */
  predicate SpecialKept(isWord: char -> bool, c: char) {
    isWord(c) || ('\U{4E00}' <= c <= '\U{9FFF}') || c == '-'
  }

  /** The custom-character loop: `stem = stem.replace(char, "")` for each char in turn. */
  function RemoveEach(s: seq<char>, chars: seq<char>): seq<char>
    decreases |chars|
  {
    if chars == [] then s else RemoveEach(Replace(s, [chars[0]], []), chars[1..])
  }

  /** remove_characters: spaces, then the special-character class, then each custom character, from the stem only. */
  function RemoveCharacters(name: seq<char>, removeSpaces: bool, removeSpecial: bool,
                            customChars: seq<char>, isWord: char -> bool): (r: seq<char>)
    ensures |r| <= |name|
  {
    var stem := Stem(name);
    var stem := if removeSpaces then Replace(stem, " ", "") else stem;
    var stem := if removeSpecial then Filter(stem, c => SpecialKept(isWord, c)) else stem;
    var stem := if customChars != [] then RemoveEach(stem, customChars) else stem;
    RemoveCharactersIsFilter(name, removeSpaces, removeSpecial, customChars, isWord);
    stem + Extension(name)
  }

  /** Whether a stem character survives remove_characters. */
  predicate Kept(removeSpaces: bool, removeSpecial: bool, customChars: seq<char>,
                 isWord: char -> bool, c: char) {
    !(removeSpaces && c == ' ') && !(removeSpecial && !SpecialKept(isWord, c)) && c !in customChars
  }

  /** The custom-character loop deletes exactly the characters listed. */
  lemma {:induction false} RemoveEachIsFilter(s: seq<char>, chars: seq<char>)
    ensures RemoveEach(s, chars) == Filter(s, c => c !in chars)
    decreases |chars|
  {
    if chars == [] {
      FilterKeepsAll(s, c => c !in chars);
    } else {
      var c0 := chars[0];
      ReplaceCharByNothing(s, c0, c => c != c0);
      RemoveEachIsFilter(Replace(s, [c0], []), chars[1..]);
      FilterCompose(s, c => c != c0, c => c !in chars[1..], c => c !in chars);
    }
  }

  /** The three stages of remove_characters amount to one filter of the stem by Kept. */
  lemma RemoveCharactersIsFilter(name: seq<char>, removeSpaces: bool, removeSpecial: bool,
                                 customChars: seq<char>, isWord: char -> bool)
    ensures var stem := Stem(name);
      var s1 := if removeSpaces then Replace(stem, " ", "") else stem;
      var s2 := if removeSpecial then Filter(s1, c => SpecialKept(isWord, c)) else s1;
      var s3 := if customChars != [] then RemoveEach(s2, customChars) else s2;
      s3 == Filter(stem, c => Kept(removeSpaces, removeSpecial, customChars, isWord, c))
  {
    RemoveStagesAreFilter(Stem(name), removeSpaces, removeSpecial, customChars, isWord);
  }

  lemma RemoveStagesAreFilter(stem: seq<char>, removeSpaces: bool, removeSpecial: bool,
                              customChars: seq<char>, isWord: char -> bool)
    ensures var s1 := if removeSpaces then Replace(stem, " ", "") else stem;
      var s2 := if removeSpecial then Filter(s1, c => SpecialKept(isWord, c)) else s1;
      var s3 := if customChars != [] then RemoveEach(s2, customChars) else s2;
      s3 == Filter(stem, c => Kept(removeSpaces, removeSpecial, customChars, isWord, c))
  {
    var p1 := c => !(removeSpaces && c == ' ');
    var p2 := c => !(removeSpecial && !SpecialKept(isWord, c));
    var p3 := c => c !in customChars;
    var p12 := c => p1(c) && p2(c);
    SpaceStage(stem, removeSpaces, p1);
    var s1 := if removeSpaces then Replace(stem, " ", "") else stem;
    SpecialStage(s1, removeSpecial, isWord, p2);
    FilterCompose(stem, p1, p2, p12);
    var s2 := if removeSpecial then Filter(s1, c => SpecialKept(isWord, c)) else s1;
    CustomStage(s2, customChars, p3);
    FilterCompose(stem, p12, p3, c => Kept(removeSpaces, removeSpecial, customChars, isWord, c));
  }

  /** The space stage deletes the spaces, when it is on. */
  lemma SpaceStage(stem: seq<char>, removeSpaces: bool, p1: char -> bool)
    requires forall c :: p1(c) == !(removeSpaces && c == ' ')
    ensures (if removeSpaces then Replace(stem, " ", "") else stem) == Filter(stem, p1)
  {
    if removeSpaces {
      ReplaceCharByNothing(stem, ' ', p1);
    } else {
      FilterKeepsAll(stem, p1);
    }
  }

  /** The special-character stage keeps what SpecialKept keeps, when it is on. */
  lemma SpecialStage(s1: seq<char>, removeSpecial: bool, isWord: char -> bool, p2: char -> bool)
    requires forall c :: p2(c) == !(removeSpecial && !SpecialKept(isWord, c))
    ensures (if removeSpecial then Filter(s1, c => SpecialKept(isWord, c)) else s1) == Filter(s1, p2)
  {
    if removeSpecial {
      FilterCompose(s1, p2, c => true, c => SpecialKept(isWord, c));
      FilterKeepsAll(Filter(s1, p2), c => true);
    } else {
      FilterKeepsAll(s1, p2);
    }
  }

  /** The custom-character stage deletes the listed characters. */
  lemma CustomStage(s2: seq<char>, customChars: seq<char>, p3: char -> bool)
    requires forall c :: p3(c) == (c !in customChars)
    ensures (if customChars != [] then RemoveEach(s2, customChars) else s2) == Filter(s2, p3)
  {
    RemoveEachIsFilter(s2, customChars);
    if customChars == [] {
      FilterKeepsAll(s2, p3);
    } else {
      FilterCompose(s2, p3, c => true, c => c !in customChars);
      FilterKeepsAll(Filter(s2, p3), c => true);
    }
  }

  /**
   * remove_characters keeps the extension; the new stem is the old one with
   * characters deleted, has no space when spaces are removed, only kept
   * characters when special characters are removed, and none of the custom ones.
   */
  lemma RemoveCharactersGuarantees(name: seq<char>, removeSpaces: bool, removeSpecial: bool,
                                   customChars: seq<char>, isWord: char -> bool)
    ensures var r := RemoveCharacters(name, removeSpaces, removeSpecial, customChars, isWord);
      var ext := Extension(name);
      var stem := r[..|r| - |ext|];
      |ext| <= |r| && r[|r| - |ext|..] == ext &&
      IsSubsequence(stem, Stem(name)) &&
      (removeSpaces ==> ' ' !in stem) &&
      (removeSpecial ==> forall c :: c in stem ==> SpecialKept(isWord, c)) &&
      (forall c :: c in customChars ==> c !in stem) &&
      (forall c :: c in Stem(name) && Kept(removeSpaces, removeSpecial, customChars, isWord, c) ==> c in stem)
  {
    var keep := c => Kept(removeSpaces, removeSpecial, customChars, isWord, c);
    RemoveCharactersIsFilter(name, removeSpaces, removeSpecial, customChars, isWord);
    var filtered := Filter(Stem(name), keep);
    SplitOffEnd(filtered, Extension(name));
    KeptStem(Stem(name), filtered, removeSpaces, removeSpecial, customChars, isWord);
  }

  /** Cutting `ext` off the end of `stem + ext` gives `stem` back. */
  lemma SplitOffEnd(stem: seq<char>, ext: seq<char>)
    ensures var r := stem + ext; |ext| <= |r| && r[|r| - |ext|..] == ext && r[..|r| - |ext|] == stem
  {
  }

  /** What filtering a stem by Kept guarantees, stated for any stem. */
  lemma KeptStem(stem: seq<char>, filtered: seq<char>, removeSpaces: bool, removeSpecial: bool,
                 customChars: seq<char>, isWord: char -> bool)
    requires filtered == Filter(stem, c => Kept(removeSpaces, removeSpecial, customChars, isWord, c))
    ensures IsSubsequence(filtered, stem)
    ensures removeSpaces ==> ' ' !in filtered
    ensures removeSpecial ==> forall c :: c in filtered ==> SpecialKept(isWord, c)
    ensures forall c :: c in customChars ==> c !in filtered
    ensures forall c :: c in stem && Kept(removeSpaces, removeSpecial, customChars, isWord, c) ==> c in filtered
  {
    FilterIsSubsequence(stem, c => Kept(removeSpaces, removeSpecial, customChars, isWord, c));
  }

  // ---------------------------------------------------------------- insert

  /** insert_text: the text goes at `position` in the stem (-1 or past the end: before the extension). */
  function InsertText(name: seq<char>, text: seq<char>, position: int): (r: seq<char>)
    ensures |r| == |name| + |text|
  {
    var stem := Stem(name);
    var ext := Extension(name);
    if position == -1 || position >= |stem| then stem + text + ext
    else if position == 0 then text + stem + ext
    else Take(stem, position) + text + Drop(stem, position) + ext
  }

  /** Where the text lands, stated without Python's slicing: from the end for other negative positions. */
  function InsertionPoint(position: int, stemLength: nat): (k: nat)
    ensures k <= stemLength
  {
    if position == -1 || position >= stemLength then stemLength
    else if position >= 0 then position
    else if stemLength + position >= 0 then stemLength + position
    else 0
  }

  /**
   * The text sits at InsertionPoint and taking it out again gives back the
   * old name; at position 0 the text leads the whole name.
   */
  lemma InsertTextPlacement(name: seq<char>, text: seq<char>, position: int)
    ensures var r := InsertText(name, text, position);
      var k := InsertionPoint(position, |Stem(name)|);
      r[k..k + |text|] == text && r[..k] + r[k + |text|..] == name &&
      (position == 0 ==> r == text + name) &&
      (position == -1 ==> r == Stem(name) + text + Extension(name))
  {
    var stem, ext := Stem(name), Extension(name);
    InsertTextSplice(name, text, position);
    SplitAt(stem, ext, text, InsertionPoint(position, |stem|));
  }

  /** The text spliced in at k can be found and cut out again; at either end it simply leads or trails. */
  lemma SplitAt(stem: seq<char>, ext: seq<char>, text: seq<char>, k: nat)
    requires k <= |stem|
    ensures var r := stem[..k] + text + (stem[k..] + ext);
      r[k..k + |text|] == text && r[..k] + r[k + |text|..] == stem + ext &&
      (k == 0 ==> r == text + (stem + ext)) &&
      (k == |stem| ==> r == stem + text + ext)
  {
    var a, b := stem[..k], stem[k..] + ext;
    Splice(a, text, b);
    assert a + b == stem + ext;
    if k == 0 {
      assert a == [] && b == stem + ext;
    }
    if k == |stem| {
      assert a == stem && b == ext;
    }
  }

  /** insert_text splices the text into the stem at InsertionPoint. */
  lemma InsertTextSplice(name: seq<char>, text: seq<char>, position: int)
    ensures var stem := Stem(name);
      var k := InsertionPoint(position, |stem|);
      InsertText(name, text, position) == stem[..k] + text + (stem[k..] + Extension(name))
  {
    SpliceAt(Stem(name), Extension(name), text, position);
  }

  /** The three cases of insert_text are one splice, for any stem and extension. */
  lemma SpliceAt(stem: seq<char>, ext: seq<char>, text: seq<char>, position: int)
    ensures var k := InsertionPoint(position, |stem|);
      (if position == -1 || position >= |stem| then stem + text + ext
       else if position == 0 then text + stem + ext
       else Take(stem, position) + text + Drop(stem, position) + ext)
      == stem[..k] + text + (stem[k..] + ext)
  {
    var k := InsertionPoint(position, |stem|);
    if position == -1 || position >= |stem| {
      Regroup(stem, text, [], ext);
      assert stem[..k] == stem && stem[k..] == [];
    } else if position == 0 {
      Regroup([], text, stem, ext);
      assert stem[..k] == [] && stem[k..] == stem;
    } else {
      MiddleCut(stem, position);
      Regroup(Take(stem, position), text, Drop(stem, position), ext);
    }
  }

  /** For a position strictly inside the stem's range, Python's slices cut at InsertionPoint. */
  lemma MiddleCut(stem: seq<char>, position: int)
    requires position != -1 && position < |stem| && position != 0
    ensures var k := InsertionPoint(position, |stem|);
      Take(stem, position) == stem[..k] && Drop(stem, position) == stem[k..]
  {
  }

  lemma Regroup(a: seq<char>, t: seq<char>, b: seq<char>, e: seq<char>)
    ensures a + t + b + e == a + t + (b + e) && [] + t + (b + e) == t + b + e && a + t + ([] + e) == a + t + e
  {
  }

  /** Text spliced between `a` and `b` can be found and cut out again. */
  lemma Splice(a: seq<char>, text: seq<char>, b: seq<char>)
    ensures var r := a + text + b;
      r[|a|..|a| + |text|] == text && r[..|a|] + r[|a| + |text|..] == a + b
  {
    var r := a + text + b;
    assert r[..|a|] == a && r[|a| + |text|..] == b;
  }

  // ---------------------------------------------------------------- truncate

  /** truncate_name: keep the first (or last) `maxLength` characters of a stem that is longer. */
  function TruncateName(name: seq<char>, maxLength: int, fromStart: bool): (r: seq<char>)
    ensures |Stem(name)| <= maxLength ==> r == name
    ensures |r| <= |name|
  {
    var stem := Stem(name);
    if |stem| <= maxLength then name
    else (if fromStart then Take(stem, maxLength) else Drop(stem, -maxLength)) + Extension(name)
  }

  /**
   * For 0 < maxLength < |stem| the new stem is the first or the last
   * `maxLength` characters of the old one, and the extension is kept.
   */
  lemma TruncateKeepsEnds(name: seq<char>, maxLength: int, fromStart: bool)
    requires 0 < maxLength < |Stem(name)|
    ensures var stem, r := Stem(name), TruncateName(name, maxLength, fromStart);
      var kept := if fromStart then stem[..maxLength] else stem[|stem| - maxLength..];
      r == kept + Extension(name) && |kept| == maxLength &&
      (HasExtension(name) ==> Stem(r) == kept && Extension(r) == Extension(name))
  {
    var stem, ext := Stem(name), Extension(name);
    var kept := if fromStart then stem[..maxLength] else stem[|stem| - maxLength..];
    KeptEnd(stem, maxLength, fromStart);
    assert TruncateName(name, maxLength, fromStart) == kept + ext;
    if HasExtension(name) {
      SplitJoin(kept, ext);
    }
  }

  /** Python's `stem[:n]` and `stem[-n:]` for 0 < n < |stem|. */
  lemma KeptEnd(stem: seq<char>, n: int, fromStart: bool)
    requires 0 < n < |stem|
    ensures var kept := if fromStart then Take(stem, n) else Drop(stem, -n);
      kept == (if fromStart then stem[..n] else stem[|stem| - n..]) && |kept| == n
  {
  }

  /** Python's `stem[-0:]` is the whole stem, so a zero limit from the end keeps the name. */
  lemma TruncateZeroFromEnd(name: seq<char>)
    ensures TruncateName(name, 0, false) == name
  {
  }

  /** Truncating twice to the same positive limit is truncating once. */
  lemma TruncateIdempotent(name: seq<char>, maxLength: int, fromStart: bool)
    requires maxLength >= 1
    ensures TruncateName(TruncateName(name, maxLength, fromStart), maxLength, fromStart)
         == TruncateName(name, maxLength, fromStart)
  {
    var r := TruncateName(name, maxLength, fromStart);
    if maxLength < |Stem(name)| {
      TruncateKeepsEnds(name, maxLength, fromStart);
      if !HasExtension(name) {
        assert |Stem(r)| <= |r|;
      }
    }
  }
}
