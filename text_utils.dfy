/** The text helpers of VNUtils: String.Split on one character, the greedy word wrap and
    filename sanitising. */
module TextUtils {

  /** String.Split(sep): the pieces between separators, from left to right; a string with
      k separators has k + 1 pieces, some of them possibly empty. */
  function Split(s: string, sep: char): (r: seq<string>)
    ensures |r| >= 1
  {
    if |s| == 0 then [""] else AddChar(Split(s[..|s| - 1], sep), s[|s| - 1], sep)
  }

  /** One more character: the separator opens a new piece, any other extends the last one. */
  function AddChar(pieces: seq<string>, c: char, sep: char): (r: seq<string>)
    requires |pieces| >= 1
    ensures |r| >= 1
  {
    if c == sep then pieces + [""]
    else pieces[..|pieces| - 1] + [pieces[|pieces| - 1] + [c]]
  }

  /** No piece holds the separator, and every piece is made of characters of s and is no
      longer than s. */
  predicate PiecesWithin(pieces: seq<string>, sep: char, s: string) {
    && (forall i :: 0 <= i < |pieces| ==> |pieces[i]| <= |s|)
    && (forall i, j :: 0 <= i < |pieces| && 0 <= j < |pieces[i]| ==>
          pieces[i][j] != sep && pieces[i][j] in s)
  }

  lemma AddCharWithin(pieces: seq<string>, sep: char, s: string)
    requires |s| > 0 && |pieces| >= 1 && PiecesWithin(pieces, sep, s[..|s| - 1])
    ensures PiecesWithin(AddChar(pieces, s[|s| - 1], sep), sep, s)
  {
    var s', c := s[..|s| - 1], s[|s| - 1];
    var q := AddChar(pieces, c, sep);
    assert forall x :: x in s' ==> x in s;
    forall i | 0 <= i < |q|
      ensures |q[i]| <= |s|
      ensures forall j :: 0 <= j < |q[i]| ==> q[i][j] != sep && q[i][j] in s
    {
      if i < |pieces| - 1 || (c == sep && i < |pieces|) {
        assert q[i] == pieces[i];
      } else if c != sep {
        assert q[i] == pieces[i] + [c];
        assert forall j :: 0 <= j < |pieces[i]| ==> q[i][j] == pieces[i][j];
      } else {
        assert q[i] == "";
      }
    }
  }

  lemma {:induction false} SplitPieces(s: string, sep: char)
    ensures PiecesWithin(Split(s, sep), sep, s)
  {
    if |s| > 0 {
      SplitPieces(s[..|s| - 1], sep);
      AddCharWithin(Split(s[..|s| - 1], sep), sep, s);
    }
  }

  /** A character that is not in s is in none of its pieces. */
  lemma SplitAvoids(s: string, sep: char, x: char)
    requires x !in s
    ensures forall i :: 0 <= i < |Split(s, sep)| ==> x !in Split(s, sep)[i]
  {
    SplitPieces(s, sep);
  }

  /** No piece is longer than the string. */
  lemma SplitPiecesShorter(s: string, sep: char)
    ensures forall i :: 0 <= i < |Split(s, sep)| ==> |Split(s, sep)[i]| <= |s|
  {
    SplitPieces(s, sep);
  }

  /** String.Join(sep, pieces). */
  function Join(pieces: seq<string>, sep: char): string {
    if |pieces| == 0 then ""
    else if |pieces| == 1 then pieces[0]
    else Join(pieces[..|pieces| - 1], sep) + [sep] + pieces[|pieces| - 1]
  }

  /** Joining one more piece. */
  lemma JoinSnoc(pieces: seq<string>, x: string, sep: char)
    requires |pieces| >= 1
    ensures Join(pieces + [x], sep) == Join(pieces, sep) + [sep] + x
  {
    assert (pieces + [x])[..|pieces|] == pieces;
  }

  /** Adding a character to the pieces adds it to the joined string. */
  lemma JoinAddChar(pieces: seq<string>, c: char, sep: char)
    requires |pieces| >= 1
    ensures Join(AddChar(pieces, c, sep), sep) == Join(pieces, sep) + [c]
  {
    var n := |pieces|;
    if c == sep {
      JoinSnoc(pieces, "", sep);
      assert Join(pieces, sep) + [sep] + "" == Join(pieces, sep) + [c];
    } else if n == 1 {
      assert AddChar(pieces, c, sep) == [pieces[0] + [c]];
    } else {
      var init := pieces[..n - 1];
      JoinSnoc(init, pieces[n - 1] + [c], sep);
      JoinSnoc(init, pieces[n - 1], sep);
      assert pieces == init + [pieces[n - 1]];
    }
  }

  /** Joining the pieces with the separator gives back the string split. */
  lemma {:induction false} JoinSplit(s: string, sep: char)
    ensures Join(Split(s, sep), sep) == s
  {
    if |s| > 0 {
      var s', c := s[..|s| - 1], s[|s| - 1];
      JoinSplit(s', sep);
      JoinAddChar(Split(s', sep), c, sep);
      assert s' + [c] == s;
    }
  }

  /** The last piece of a fused with the first piece of b, between the other pieces. */
  function Fuse(pa: seq<string>, pb: seq<string>): seq<string>
    requires |pa| >= 1 && |pb| >= 1
  {
    pa[..|pa| - 1] + [pa[|pa| - 1] + pb[0]] + pb[1..]
  }

  /** Adding a character after a fusion is adding it to the second part. */
  lemma FuseAddChar(pa: seq<string>, pb: seq<string>, c: char, sep: char)
    requires |pa| >= 1 && |pb| >= 1
    ensures AddChar(Fuse(pa, pb), c, sep) == Fuse(pa, AddChar(pb, c, sep))
  {
    var fa, la, n := pa[..|pa| - 1], pa[|pa| - 1], |pb|;
    var p, q := Fuse(pa, pb), AddChar(pb, c, sep);
    if c == sep {
      assert q[1..] == pb[1..] + [""];
    } else if n == 1 {
      assert p[..|p| - 1] == fa;
      assert (la + pb[0]) + [c] == la + (pb[0] + [c]);
    } else {
      assert q[0] == pb[0];
      assert q[1..] == pb[1..n - 1] + [pb[n - 1] + [c]];
      assert p[..|p| - 1] == fa + [la + pb[0]] + pb[1..n - 1];
    }
  }

  /** Splitting a concatenation: the last piece of a fuses with the first piece of b. */
  lemma {:induction false} SplitConcat(a: string, b: string, sep: char)
    ensures Split(a + b, sep) == Fuse(Split(a, sep), Split(b, sep))
  {
    var pa := Split(a, sep);
    if |b| == 0 {
      assert a + b == a;
      assert Split(b, sep) == [""];
      assert Fuse(pa, [""]) == pa[..|pa| - 1] + [pa[|pa| - 1] + ""] + [];
      assert pa == pa[..|pa| - 1] + [pa[|pa| - 1]];
      assert pa[|pa| - 1] + "" == pa[|pa| - 1];
    } else {
      var b', c := b[..|b| - 1], b[|b| - 1];
      var pb' := Split(b', sep);
      assert (a + b)[..|a + b| - 1] == a + b';
      assert (a + b)[|a + b| - 1] == c;
      assert Split(a + b, sep) == AddChar(Split(a + b', sep), c, sep);
      assert Split(b, sep) == AddChar(pb', c, sep);
      SplitConcat(a, b', sep);
      FuseAddChar(pa, pb', c, sep);
    }
  }

  /** A string without the separator is a single piece. */
  lemma {:induction false} SplitWithoutSeparator(s: string, sep: char)
    requires sep !in s
    ensures Split(s, sep) == [s]
  {
    if |s| > 0 {
      assert s[..|s| - 1] + [s[|s| - 1]] == s;
      SplitWithoutSeparator(s[..|s| - 1], sep);
    }
  }

  /** A string holding the separator splits into at least two pieces, the first shorter than it. */
  lemma {:induction false} SplitAtSeparator(s: string, sep: char)
    requires sep in s
    ensures |Split(s, sep)| >= 2 && |Split(s, sep)[0]| < |s|
  {
    var s', c := s[..|s| - 1], s[|s| - 1];
    assert s' + [c] == s;
    if c == sep {
      SplitPiecesShorter(s', sep);
    } else {
      assert sep in s';
      SplitAtSeparator(s', sep);
    }
  }

  /** A string that does not start with the separator has a non-empty first piece. */
  lemma {:induction false} SplitFirstPieceNonEmpty(s: string, sep: char)
    requires |s| > 0 && s[0] != sep
    ensures |Split(s, sep)[0]| > 0
  {
    if |s| > 1 {
      SplitFirstPieceNonEmpty(s[..|s| - 1], sep);
    }
  }

  // ---------------------------------------------------------------------------------------
  // Greedy word wrap

  /** What WrapText puts before a word: nothing, one space or one line break. */
  datatype Break = Joined | Spaced | NewLine

  function BreakText(b: Break): string {
    match b
    case Joined => ""
    case Spaced => " "
    case NewLine => "\n"
  }

  /** The break chosen for a word when the current line holds lineLength characters. */
  function BreakBefore(lineLength: int, word: string, maxLineLength: int): Break {
    if lineLength + |word| + 1 > maxLineLength then NewLine
    else if lineLength > 0 then Spaced
    else Joined
  }

  function LineLengthAfter(lineLength: int, word: string, b: Break): int {
    (match b
     case NewLine => 0
     case Spaced => lineLength + 1
     case Joined => lineLength) + |word|
  }

  /** The text built so far and the length of its last line, as WrapText tracks them. */
  datatype WrapState = WrapState(text: string, lineLength: int)

  /** Appending one word after the break the current line length calls for. */
  function AppendWordTo(st: WrapState, word: string, maxLineLength: int): WrapState {
    var b := BreakBefore(st.lineLength, word, maxLineLength);
    WrapState(st.text + BreakText(b) + word, LineLengthAfter(st.lineLength, word, b))
  }

  /** The state after the first n words. */
  function WrapWords(words: seq<string>, n: nat, maxLineLength: int): WrapState
    requires n <= |words|
  {
    if n == 0 then WrapState("", 0)
    else AppendWordTo(WrapWords(words, n - 1, maxLineLength), words[n - 1], maxLineLength)
  }

  /** The text WrapText produces for a non-empty text and a positive maximum. */
  function Wrapped(text: string, maxLineLength: int): string {
    var words := Split(text, ' ');
    WrapWords(words, |words|, maxLineLength).text
  }

  /** The output lines, as separated by line breaks. */
  function Lines(s: string): seq<string> {
    Split(s, '\n')
  }

  /** A line fits when it is no longer than the maximum or holds no space, i.e. is a single word. */
  predicate Fits(line: string, maxLineLength: int) {
    |line| <= maxLineLength || ' ' !in line
  }

  predicate WellWrapped(s: string, maxLineLength: int) {
    forall i :: 0 <= i < |Lines(s)| ==> Fits(Lines(s)[i], maxLineLength)
  }

  /** VNUtils.WrapText: greedy wrapping of the space-separated words. */
  method WrapText(text: string, maxLineLength: int) returns (r: string)
    ensures |text| == 0 || maxLineLength <= 0 ==> r == text
    ensures |text| > 0 && maxLineLength > 0 ==> r == Wrapped(text, maxLineLength)
    ensures |text| > 0 && maxLineLength > 0 ==> WellWrapped(r, maxLineLength)
  {
    if |text| == 0 || maxLineLength <= 0 {
      return text;
    }
    var words := Split(text, ' ');
    var result := "";
    var currentLineLength := 0;
    for i := 0 to |words|
      invariant WrapWords(words, i, maxLineLength) == WrapState(result, currentLineLength)
    {
      var word := words[i];
      if currentLineLength + |word| + 1 > maxLineLength {
        result := result + "\n";
        currentLineLength := 0;
      } else if currentLineLength > 0 {
        result := result + " ";
        currentLineLength := currentLineLength + 1;
      } else {
        assert result + "" == result;
      }
      result := result + word;
      currentLineLength := currentLineLength + |word|;
    }
    r := result;
    WrappedIsWellWrapped(text, maxLineLength);
  }

  /** The invariant of the wrap: all lines so far are well wrapped and the last one is no
      longer than the length WrapText tracks. */
  predicate WrapInvariant(st: WrapState, maxLineLength: int) {
    var ls := Lines(st.text);
    WellWrapped(st.text, maxLineLength) && |ls[|ls| - 1]| <= st.lineLength
  }

  /** Appending a word without spaces to a text whose completed lines fit, when the last line
      with the word's first line still fits. */
  lemma LinesAfterWord(t: string, word: string, maxLineLength: int)
    requires ' ' !in word
    requires forall i :: 0 <= i < |Lines(t)| - 1 ==> Fits(Lines(t)[i], maxLineLength)
    requires Fits(Lines(t)[|Lines(t)| - 1] + Lines(word)[0], maxLineLength)
    ensures WellWrapped(t + word, maxLineLength)
    ensures |Lines(t + word)[|Lines(t + word)| - 1]| <= |Lines(t)[|Lines(t)| - 1]| + |word|
  {
    var lt, lw := Lines(t), Lines(word);
    SplitAvoids(word, '\n', ' ');
    SplitPiecesShorter(word, '\n');
    SplitConcat(t, word, '\n');
    var before, middle := lt[..|lt| - 1], lt[|lt| - 1] + lw[0];
    var nl := Lines(t + word);
    assert nl == before + [middle] + lw[1..];
    forall i | 0 <= i < |nl|
      ensures Fits(nl[i], maxLineLength)
    {
      if i < |before| {
        assert nl[i] == lt[i];
      } else if i > |before| {
        assert nl[i] == lw[i - |before|];
      }
    }
  }

  /** Appending a word keeps the invariant. */
  lemma AppendWordKeepsInvariant(st: WrapState, word: string, maxLineLength: int)
    requires WrapInvariant(st, maxLineLength) && ' ' !in word
    ensures WrapInvariant(AppendWordTo(st, word, maxLineLength), maxLineLength)
  {
    var s := st.text;
    var b := BreakBefore(st.lineLength, word, maxLineLength);
    var ls, lw := Lines(s), Lines(word);
    var t := s + BreakText(b);
    var last := ls[|ls| - 1];
    if b == NewLine {
      assert t[..|t| - 1] == s && t[|t| - 1] == '\n';
      assert Lines(t) == ls + [""];
      assert "" + lw[0] == lw[0];
      SplitAvoids(word, '\n', ' ');
    } else if b == Spaced {
      assert t[..|t| - 1] == s && t[|t| - 1] == ' ';
      assert Lines(t) == ls[..|ls| - 1] + [last + " "];
      SplitPiecesShorter(word, '\n');
    } else {
      assert t == s;
      assert last + lw[0] == lw[0];
      SplitAvoids(word, '\n', ' ');
    }
    LinesAfterWord(t, word, maxLineLength);
  }

  lemma {:induction false} WrapWordsInvariant(words: seq<string>, n: nat, maxLineLength: int)
    requires n <= |words|
    requires forall i :: 0 <= i < |words| ==> ' ' !in words[i]
    ensures WrapInvariant(WrapWords(words, n, maxLineLength), maxLineLength)
  {
    if n == 0 {
      assert Lines("") == [""];
    } else {
      WrapWordsInvariant(words, n - 1, maxLineLength);
      AppendWordKeepsInvariant(WrapWords(words, n - 1, maxLineLength), words[n - 1], maxLineLength);
    }
  }

  /** Every line of the wrapped text fits the maximum or is a single word: a line of
      two or more words is never longer than the maximum. */
  lemma WrappedIsWellWrapped(text: string, maxLineLength: int)
    ensures WellWrapped(Wrapped(text, maxLineLength), maxLineLength)
  {
    var words := Split(text, ' ');
    SplitPieces(text, ' ');
    forall i | 0 <= i < |words| ensures ' ' !in words[i] {
      assert forall j :: 0 <= j < |words[i]| ==> words[i][j] != ' ';
    }
    WrapWordsInvariant(words, |words|, maxLineLength);
  }

  /** An empty text has an empty current line, and a non-empty one does not start with a space. */
  predicate StartsWell(st: WrapState) {
    (|st.text| == 0 ==> st.lineLength == 0) && (|st.text| > 0 ==> st.text[0] != ' ')
  }

  lemma AppendWordStartsWell(st: WrapState, word: string, maxLineLength: int)
    requires StartsWell(st) && ' ' !in word
    ensures StartsWell(AppendWordTo(st, word, maxLineLength))
  {
    var b := BreakBefore(st.lineLength, word, maxLineLength);
    var t := st.text + BreakText(b) + word;
    if |st.text| > 0 {
      assert t[0] == st.text[0];
    } else if b == NewLine {
      assert t[0] == '\n';
    } else {
      assert t == word;
      assert |word| > 0 ==> word[0] in word;
    }
  }

  /** No space is ever put before the first word: the output does not start with a space. */
  lemma {:induction false} WrapNeverStartsWithSpace(words: seq<string>, n: nat, maxLineLength: int)
    requires n <= |words|
    requires forall i :: 0 <= i < |words| ==> ' ' !in words[i]
    ensures StartsWell(WrapWords(words, n, maxLineLength))
  {
    if n > 0 {
      WrapNeverStartsWithSpace(words, n - 1, maxLineLength);
      AppendWordStartsWell(WrapWords(words, n - 1, maxLineLength), words[n - 1], maxLineLength);
    }
  }

  lemma {:induction false} ShortWrap(words: seq<string>, n: nat, maxLineLength: int)
    requires 0 < n <= |words| && 0 < |words[0]| < maxLineLength
    requires |Join(words[..n], ' ')| <= maxLineLength
    ensures WrapWords(words, n, maxLineLength) == WrapState(Join(words[..n], ' '), |Join(words[..n], ' ')|)
  {
    if n > 1 {
      var init := words[..n - 1];
      assert words[..n][..n - 1] == init;
      assert init == words[..n - 1][..n - 1];
      ShortWrap(words, n - 1, maxLineLength);
      assert n - 1 == 1 ==> Join(init, ' ') == words[0];
    } else {
      assert words[..1] == [words[0]];
    }
  }

  /** A text that fits on one line and does not start with a space comes back as it was. It
      may fill the line exactly only when it holds a space: a first word as long as the line
      is preceded by a line break (LongFirstWordBreaksFirst). */
  lemma ShortTextUnchanged(text: string, maxLineLength: int)
    requires 0 < |text| <= maxLineLength && text[0] != ' '
    requires |text| < maxLineLength || ' ' in text
    ensures Wrapped(text, maxLineLength) == text
  {
    var words := Split(text, ' ');
    JoinSplit(text, ' ');
    SplitFirstPieceNonEmpty(text, ' ');
    if ' ' in text {
      SplitAtSeparator(text, ' ');
    } else {
      SplitPiecesShorter(text, ' ');
    }
    assert words[..|words|] == words;
    ShortWrap(words, |words|, maxLineLength);
  }

  /** Appending words only extends the text. */
  lemma {:induction false} WrapWordsExtends(words: seq<string>, n: nat, maxLineLength: int)
    requires 1 <= n <= |words|
    ensures WrapWords(words, 1, maxLineLength).text <= WrapWords(words, n, maxLineLength).text
  {
    if n > 1 {
      WrapWordsExtends(words, n - 1, maxLineLength);
    }
  }

  /** The length test counts a space before the first word too, so a first word at least as
      long as the line is preceded by a line break. */
  lemma LongFirstWordBreaksFirst(text: string, maxLineLength: int)
    requires 0 < maxLineLength <= |Split(text, ' ')[0]|
    ensures |Wrapped(text, maxLineLength)| > 0 && Wrapped(text, maxLineLength)[0] == '\n'
  {
    var words := Split(text, ' ');
    assert WrapWords(words, 1, maxLineLength).text == "\n" + words[0];
    WrapWordsExtends(words, |words|, maxLineLength);
  }

  // ---------------------------------------------------------------------------------------
  // Filename sanitising

  /** The characters of s that are not in invalid, in order. */
  function Without(s: string, invalid: seq<char>): (r: string)
    ensures |r| <= |s|
  {
    if |s| == 0 then ""
    else Without(s[..|s| - 1], invalid) + (if s[|s| - 1] in invalid then "" else [s[|s| - 1]])
  }

  /** What is left holds no invalid character and only characters of s. */
  lemma {:induction false} WithoutOnlyValid(s: string, invalid: seq<char>)
    ensures forall i :: 0 <= i < |Without(s, invalid)| ==>
      Without(s, invalid)[i] !in invalid && Without(s, invalid)[i] in s
  {
    if |s| > 0 {
      var init := s[..|s| - 1];
      WithoutOnlyValid(init, invalid);
      assert forall x :: x in init ==> x in s;
    }
  }

  /** Deleting one more character after deleting a list of them. */
  lemma {:induction false} WithoutOneMore(s: string, invalid: seq<char>, c: char)
    ensures Without(Without(s, invalid), [c]) == Without(s, invalid + [c])
  {
    if |s| > 0 {
      var init, x := s[..|s| - 1], s[|s| - 1];
      WithoutOneMore(init, invalid, c);
      var w := Without(s, invalid);
      if x !in invalid {
        assert w[..|w| - 1] == Without(init, invalid);
      } else {
        assert w == Without(init, invalid);
      }
    }
  }

  /** VNUtils.SanitizeFileName over a given set of invalid characters: one deletion pass per
      invalid character (String.Replace with the empty string). */
  method SanitizeFileName(fileName: string, invalidChars: seq<char>) returns (r: string)
    ensures r == Without(fileName, invalidChars)
    ensures forall i :: 0 <= i < |r| ==> r[i] !in invalidChars
  {
    r := fileName;
    assert Without(fileName, []) == fileName by { WithoutNothing(fileName); }
    for i := 0 to |invalidChars|
      invariant r == Without(fileName, invalidChars[..i])
    {
      WithoutOneMore(fileName, invalidChars[..i], invalidChars[i]);
      assert invalidChars[..i + 1] == invalidChars[..i] + [invalidChars[i]];
      r := Without(r, [invalidChars[i]]);
    }
    assert invalidChars[..|invalidChars|] == invalidChars;
    WithoutOnlyValid(fileName, invalidChars);
  }

  lemma {:induction false} WithoutNothing(s: string)
    ensures Without(s, []) == s
  {
    if |s| > 0 {
      WithoutNothing(s[..|s| - 1]);
    }
  }

  /** Sanitising keeps every valid character as often as it occurs and drops every invalid one. */
  lemma {:induction false} WithoutCounts(s: string, invalid: seq<char>, c: char)
    ensures multiset(Without(s, invalid))[c] == if c in invalid then 0 else multiset(s)[c]
  {
    if |s| > 0 {
      var init, x := s[..|s| - 1], s[|s| - 1];
      assert s == init + [x];
      WithoutCounts(init, invalid, c);
    }
  }

  /** Sanitising keeps the order: it distributes over concatenation. */
  lemma {:induction false} WithoutConcat(a: string, b: string, invalid: seq<char>)
    ensures Without(a + b, invalid) == Without(a, invalid) + Without(b, invalid)
  {
    if |b| == 0 {
      assert a + b == a;
    } else {
      var init := b[..|b| - 1];
      assert (a + b)[..|a + b| - 1] == a + init;
      WithoutConcat(a, init, invalid);
    }
  }

  /** Sanitising twice is sanitising once. */
  lemma {:induction false} SanitizeIdempotent(s: string, invalid: seq<char>)
    ensures Without(Without(s, invalid), invalid) == Without(s, invalid)
  {
    if |s| > 0 {
      var init, x := s[..|s| - 1], s[|s| - 1];
      SanitizeIdempotent(init, invalid);
      var tail := if x in invalid then "" else [x];
      WithoutConcat(Without(init, invalid), tail, invalid);
      if x !in invalid {
        assert Without(tail, invalid) == tail by {
          assert tail[..0] == "";
        }
      }
    }
  }
}
