/** Word normalisation and the dictionary loader: `sanitize_word` and `words_list`. */
module Words {

  /** Number of letters in every word of the game (WORD_LENGTH). */
  const WordLength: nat := 5

  predicate IsAsciiAlpha(c: char) {
    'A' <= c <= 'Z' || 'a' <= c <= 'z'
  }

  predicate IsUpperLetter(c: char) {
    'A' <= c <= 'Z'
  }

  /** A string made of the letters 'A'..'Z' only. */
  predicate IsUpperWord(s: string) {
    forall i :: 0 <= i < |s| ==> IsUpperLetter(s[i])
  }

  /** Rust's `char::is_whitespace`: the characters with the Unicode White_Space property. */
  predicate IsWhitespace(c: char) {
    c in WhiteSpace
  }

  const WhiteSpace: set<char> := {
    '\t', '\n', '\U{B}', '\U{C}', '\r', ' ', '\U{85}', '\U{A0}', '\U{1680}',
    '\U{2000}', '\U{2001}', '\U{2002}', '\U{2003}', '\U{2004}', '\U{2005}', '\U{2006}',
    '\U{2007}', '\U{2008}', '\U{2009}', '\U{200A}', '\U{2028}', '\U{2029}', '\U{202F}',
    '\U{205F}', '\U{3000}'}

  // ---------------------------------------------------------------------------
  // The three stages of `sanitize_word`: trim, to_uppercase, filter ASCII letters
  // ---------------------------------------------------------------------------

  /** `str::trim_start`: drops the leading whitespace. */
  function TrimStart(s: string): string
    decreases |s|
  {
    if s != [] && IsWhitespace(s[0]) then TrimStart(s[1..]) else s
  }

  /** `str::trim_end`: drops the trailing whitespace. */
  function TrimEnd(s: string): string
    decreases |s|
  {
    if s != [] && IsWhitespace(s[|s| - 1]) then TrimEnd(s[..|s| - 1]) else s
  }

  /** `str::trim`. */
  function Trim(s: string): string
  {
    TrimEnd(TrimStart(s))
  }

  /** `char::to_uppercase` on the ASCII range; every other character is kept as it is. */
  function UpperChar(c: char): (u: char)
    ensures IsAsciiAlpha(u) <==> IsAsciiAlpha(c)
    ensures IsAsciiAlpha(u) ==> IsUpperLetter(u)
    ensures IsUpperLetter(c) ==> u == c
  {
    if 'a' <= c <= 'z' then (c as int - 32) as char else c
  }

  /** `str::to_uppercase`, character by character. */
  function Uppercase(s: string): (r: string)
    ensures |r| == |s|
    ensures forall i :: 0 <= i < |r| ==> !('a' <= r[i] <= 'z')
  {
    seq(|s|, i requires 0 <= i < |s| => UpperChar(s[i]))
  }

  /** `.chars().filter(|c| c.is_ascii_alphabetic()).collect()`. */
  function KeepAsciiAlpha(s: string): (r: string)
    ensures |r| <= |s|
    ensures forall i :: 0 <= i < |r| ==> IsAsciiAlpha(r[i])
    ensures (forall i :: 0 <= i < |s| ==> !('a' <= s[i] <= 'z')) ==> IsUpperWord(r)
  {
    if s == [] then []
    else (if IsAsciiAlpha(s[0]) then [s[0]] else []) + KeepAsciiAlpha(s[1..])
  }

  /** `sanitize_word`: trim, uppercase, keep the ASCII letters. */
  function Sanitize(word: string): (r: string)
    ensures IsUpperWord(r)
    ensures |r| <= |word|
  {
    TrimStartRemovesWhitespace(word);
    TrimEndRemovesWhitespace(TrimStart(word));
    KeepAsciiAlpha(Uppercase(Trim(word)))
  }

  // ---------------------------------------------------------------------------
  // Byte length: Rust's `String::len` counts UTF-8 bytes, not characters
  // ---------------------------------------------------------------------------

  function Utf8Width(c: char): nat {
    if c as int < 0x80 then 1
    else if c as int < 0x800 then 2
    else if c as int < 0x10000 then 3
    else 4
  }

  /** `String::len`: the number of bytes of the UTF-8 encoding. */
  function Utf8Len(s: string): nat {
    if s == [] then 0 else Utf8Width(s[0]) + Utf8Len(s[1..])
  }

  /** A string of letters 'A'..'Z' takes one byte per character. */
  lemma {:induction false} UpperWordUtf8Len(s: string)
    requires IsUpperWord(s)
    ensures Utf8Len(s) == |s|
  {
    if s != [] {
      UpperWordUtf8Len(s[1..]);
    }
  }

  // ---------------------------------------------------------------------------
  // Properties of sanitize_word
  // ---------------------------------------------------------------------------

  lemma {:induction false} KeepAsciiAlphaConcat(a: string, b: string)
    ensures KeepAsciiAlpha(a + b) == KeepAsciiAlpha(a) + KeepAsciiAlpha(b)
    decreases |a|
  {
    if a == [] {
      assert a + b == b;
    } else {
      assert (a + b)[0] == a[0];
      assert (a + b)[1..] == a[1..] + b;
      KeepAsciiAlphaConcat(a[1..], b);
    }
  }

  lemma {:induction false} KeepAsciiAlphaOfLetters(s: string)
    requires forall i :: 0 <= i < |s| ==> IsAsciiAlpha(s[i])
    ensures KeepAsciiAlpha(s) == s
    decreases |s|
  {
    if s != [] {
      KeepAsciiAlphaOfLetters(s[1..]);
    }
  }

  lemma {:induction false} KeepAsciiAlphaOfSpaces(s: string)
    requires forall i :: 0 <= i < |s| ==> !IsAsciiAlpha(s[i])
    ensures KeepAsciiAlpha(s) == []
    decreases |s|
  {
    if s != [] {
      KeepAsciiAlphaOfSpaces(s[1..]);
    }
  }

  lemma UppercaseConcat(a: string, b: string)
    ensures Uppercase(a + b) == Uppercase(a) + Uppercase(b)
  {
  }

  /** trim_start removes a prefix made of whitespace and stops at the first other character. */
  lemma {:induction false} TrimStartRemovesWhitespace(s: string)
    ensures |TrimStart(s)| <= |s| && TrimStart(s) == s[|s| - |TrimStart(s)|..]
    ensures forall i :: 0 <= i < |s| - |TrimStart(s)| ==> IsWhitespace(s[i])
    ensures TrimStart(s) != [] ==> !IsWhitespace(TrimStart(s)[0])
    decreases |s|
  {
    if s != [] && IsWhitespace(s[0]) {
      TrimStartRemovesWhitespace(s[1..]);
    }
  }

  /** trim_end removes a suffix made of whitespace and stops at the last other character. */
  lemma {:induction false} TrimEndRemovesWhitespace(s: string)
    ensures |TrimEnd(s)| <= |s| && TrimEnd(s) == s[..|TrimEnd(s)|]
    ensures forall i :: |TrimEnd(s)| <= i < |s| ==> IsWhitespace(s[i])
    ensures TrimEnd(s) != [] ==> !IsWhitespace(TrimEnd(s)[|TrimEnd(s)| - 1])
    decreases |s|
  {
    if s != [] && IsWhitespace(s[|s| - 1]) {
      TrimEndRemovesWhitespace(s[..|s| - 1]);
    }
  }

  /** trim leaves a string that neither starts nor ends with whitespace. */
  lemma TrimEnds(s: string)
    ensures Trim(s) != [] ==> !IsWhitespace(Trim(s)[0]) && !IsWhitespace(Trim(s)[|Trim(s)| - 1])
  {
    var t := TrimStart(s);
    TrimStartRemovesWhitespace(s);
    TrimEndRemovesWhitespace(t);
    if Trim(s) != [] {
      assert Trim(s)[0] == t[0];
    }
  }

  lemma WhitespaceNotAlpha(c: char)
    requires IsWhitespace(c)
    ensures !IsAsciiAlpha(UpperChar(c))
  {
  }

  /** Sanitising whitespace gives nothing. */
  lemma SanitizeWhitespace(w: string)
    requires forall i :: 0 <= i < |w| ==> IsWhitespace(w[i])
    ensures KeepAsciiAlpha(Uppercase(w)) == []
  {
    forall i | 0 <= i < |w| ensures !IsAsciiAlpha(Uppercase(w)[i]) {
      WhitespaceNotAlpha(w[i]);
    }
    KeepAsciiAlphaOfSpaces(Uppercase(w));
  }

  /** Whitespace around a string adds nothing to its sanitised letters. */
  lemma DropWhitespace(front: string, mid: string, back: string)
    requires forall i :: 0 <= i < |front| ==> IsWhitespace(front[i])
    requires forall i :: 0 <= i < |back| ==> IsWhitespace(back[i])
    ensures KeepAsciiAlpha(Uppercase(front + mid + back)) == KeepAsciiAlpha(Uppercase(mid))
  {
    UppercaseConcat(front + mid, back);
    UppercaseConcat(front, mid);
    var f, m, b := Uppercase(front), Uppercase(mid), Uppercase(back);
    KeepAsciiAlphaConcat(f + m, b);
    KeepAsciiAlphaConcat(f, m);
    SanitizeWhitespace(front);
    SanitizeWhitespace(back);
  }

  /** The whitespace trim_start removes, and what it keeps. */
  lemma TrimStartSplit(word: string) returns (front: string, s: string)
    ensures s == TrimStart(word) && word == front + s
    ensures forall i :: 0 <= i < |front| ==> IsWhitespace(front[i])
  {
    TrimStartRemovesWhitespace(word);
    s := TrimStart(word);
    front := word[..|word| - |s|];
    assert word == front + s;
  }

  /** What trim_end keeps, and the whitespace it removes. */
  lemma TrimEndSplit(s: string) returns (t: string, back: string)
    ensures t == TrimEnd(s) && s == t + back
    ensures forall i :: 0 <= i < |back| ==> IsWhitespace(back[i])
  {
    TrimEndRemovesWhitespace(s);
    t := TrimEnd(s);
    back := s[|t|..];
    assert s == t + back;
    assert forall i :: 0 <= i < |back| ==> back[i] == s[|t| + i];
  }

  /** Trimming never changes what sanitize_word returns: whitespace is not alphabetic. */
  lemma SanitizeIgnoresTrim(word: string)
    ensures Sanitize(word) == KeepAsciiAlpha(Uppercase(word))
  {
    var front, s := TrimStartSplit(word);
    var t, back := TrimEndSplit(s);
    DropWhitespace(front, t, back);
    assert word == front + t + back;
  }

  /** The words sanitize_word leaves unchanged are exactly the strings of letters 'A'..'Z'. */
  lemma SanitizeFixedPoint(w: string)
    ensures Sanitize(w) == w <==> IsUpperWord(w)
  {
    if IsUpperWord(w) {
      SanitizeIgnoresTrim(w);
      assert Uppercase(w) == w;
      KeepAsciiAlphaOfLetters(w);
    }
  }

  /** sanitize_word is idempotent. */
  lemma SanitizeIdempotent(word: string)
    ensures Sanitize(Sanitize(word)) == Sanitize(word)
  {
    SanitizeFixedPoint(Sanitize(word));
  }

  /** The byte length of a sanitised word is its number of characters. */
  lemma SanitizedByteLength(word: string)
    ensures Utf8Len(Sanitize(word)) == |Sanitize(word)|
  {
    UpperWordUtf8Len(Sanitize(word));
  }

  // ---------------------------------------------------------------------------
  // Splitting the embedded text into lines: `str::split('\n')`
  // ---------------------------------------------------------------------------

  /** `str::split(sep)`: the pieces between separators, empty pieces included. */
  function Split(s: string, sep: char): (parts: seq<string>)
    ensures |parts| >= 1
    ensures forall k :: 0 <= k < |parts| ==> sep !in parts[k]
    decreases |s|
  {
    if s == [] then [[]]
    else
      var rest := Split(s[1..], sep);
      if s[0] == sep then [[]] + rest
      else [[s[0]] + rest[0]] + rest[1..]
  }

  /** The pieces put back together with the separator between them. */
  function Join(parts: seq<string>, sep: char): string
    requires |parts| >= 1
    decreases |parts|
  {
    if |parts| == 1 then parts[0] else parts[0] + [sep] + Join(parts[1..], sep)
  }

  /** Splitting loses nothing: joining the pieces gives the text back. */
  lemma {:induction false} JoinSplit(s: string, sep: char)
    ensures Join(Split(s, sep), sep) == s
    decreases |s|
  {
    if s != [] {
      var rest := Split(s[1..], sep);
      JoinSplit(s[1..], sep);
      if s[0] == sep {
        assert ([[]] + rest)[1..] == rest;
      } else {
        var parts := [[s[0]] + rest[0]] + rest[1..];
        if |rest| > 1 {
          assert parts[1..] == rest[1..];
        }
      }
    }
  }

  lemma {:induction false} SplitNoSeparator(p: string, sep: char)
    requires sep !in p
    ensures Split(p, sep) == [p]
    decreases |p|
  {
    if p != [] {
      SplitNoSeparator(p[1..], sep);
      assert [p[0]] + p[1..] == p;
    }
  }

  lemma {:induction false} SplitAfterPiece(p: string, sep: char, t: string)
    requires sep !in p
    ensures Split(p + [sep] + t, sep) == [p] + Split(t, sep)
    decreases |p|
  {
    if p == [] {
      assert (p + [sep] + t)[1..] == t;
    } else {
      var x := p + [sep] + t;
      assert x[0] == p[0] && x[1..] == p[1..] + [sep] + t;
      SplitAfterPiece(p[1..], sep, t);
      assert [p[0]] + p[1..] == p;
    }
  }

  /** Splitting pieces that hold no separator, once joined, gives the pieces back. */
  lemma {:induction false} SplitJoin(parts: seq<string>, sep: char)
    requires |parts| >= 1
    requires forall k :: 0 <= k < |parts| ==> sep !in parts[k]
    ensures Split(Join(parts, sep), sep) == parts
    decreases |parts|
  {
    if |parts| == 1 {
      SplitNoSeparator(parts[0], sep);
    } else {
      SplitJoin(parts[1..], sep);
      SplitAfterPiece(parts[0], sep, Join(parts[1..], sep));
    }
  }

  // ---------------------------------------------------------------------------
  // words_list
  // ---------------------------------------------------------------------------

  /** `.map(sanitize_word).filter(|line| line.len() == 5)` over the given lines. */
  function KeepWords(lines: seq<string>): (words: seq<string>)
    ensures |words| <= |lines|
    ensures forall k :: 0 <= k < |words| ==> |words[k]| == WordLength && IsUpperWord(words[k])
  {
    if lines == [] then []
    else
      var w := Sanitize(lines[0]);
      SanitizedByteLength(lines[0]);
      (if Utf8Len(w) == WordLength then [w] else []) + KeepWords(lines[1..])
  }

  /** The lines of the text after the first two (`.split('\n').skip(2)`). */
  function Body(text: string): (lines: seq<string>)
    ensures |lines| == if |Split(text, '\n')| <= 2 then 0 else |Split(text, '\n')| - 2
  {
    var lines := Split(text, '\n');
    if |lines| <= 2 then [] else lines[2..]
  }

  /** `words_list`: the dictionary built from the embedded word list. */
  function WordsList(text: string): (dictionary: seq<string>)
    ensures forall k :: 0 <= k < |dictionary| ==> |dictionary[k]| == WordLength && IsUpperWord(dictionary[k])
  {
    KeepWords(Body(text))
  }

  lemma {:induction false} KeepWordsSound(lines: seq<string>, w: string)
    requires w in KeepWords(lines)
    ensures exists k :: 0 <= k < |lines| && Sanitize(lines[k]) == w
    decreases |lines|
  {
    var s := Sanitize(lines[0]);
    if w != s || Utf8Len(s) != WordLength {
      KeepWordsSound(lines[1..], w);
      var k :| 0 <= k < |lines[1..]| && Sanitize(lines[1..][k]) == w;
      assert Sanitize(lines[k + 1]) == w;
    }
  }

  lemma {:induction false} KeepWordsComplete(lines: seq<string>, k: nat)
    requires k < |lines| && |Sanitize(lines[k])| == WordLength
    ensures Sanitize(lines[k]) in KeepWords(lines)
    decreases k
  {
    SanitizedByteLength(lines[0]);
    if k > 0 {
      KeepWordsComplete(lines[1..], k - 1);
    }
  }

  /** Every dictionary entry is a five-letter fixed point of sanitize_word taken from a line after the first two. */
  lemma WordsListSound(text: string, w: string)
    requires w in WordsList(text)
    ensures |w| == WordLength && IsUpperWord(w) && Sanitize(w) == w
    ensures exists k :: 2 <= k < |Split(text, '\n')| && Sanitize(Split(text, '\n')[k]) == w
  {
    SanitizeFixedPoint(w);
    var lines := Split(text, '\n');
    KeepWordsSound(Body(text), w);
    var k :| 0 <= k < |Body(text)| && Sanitize(Body(text)[k]) == w;
    assert Body(text)[k] == lines[k + 2];
  }

  /** Every line after the first two whose sanitised form has five letters is in the dictionary. */
  lemma WordsListComplete(text: string, k: nat)
    requires 2 <= k < |Split(text, '\n')|
    requires |Sanitize(Split(text, '\n')[k])| == WordLength
    ensures Sanitize(Split(text, '\n')[k]) in WordsList(text)
  {
    assert Body(text)[k - 2] == Split(text, '\n')[k];
    KeepWordsComplete(Body(text), k - 2);
  }
}
