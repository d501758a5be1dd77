/**
 * The keyword tokenizer applied to the job-description file name and to every
 * resume file name (src/App.js:82-85 and 88-91): remove one trailing `.pdf`
 * in any case, lower-case the rest, and cut it at every run of whitespace,
 * `-`, `_` and `.` characters.
 *
 * It is modelled as three functions, StripPdf, ToLower and Split, composed by
 * Tokenize. Empty tokens produced by a leading or trailing separator are kept,
 * as in the source.
 */
module Tokenizer {

  // ---------------------------------------------------------------------------
  // Character classes
  // ---------------------------------------------------------------------------

  /** The characters matched by `\s`: ECMAScript's WhiteSpace and LineTerminator
      code points (TAB, LF, VT, FF, CR, SPACE, NBSP, the Zs space separators,
      LS, PS and the byte-order mark ZWNBSP). */
  predicate IsWhitespace(c: char): (b: bool)
    ensures c == ' ' || c == '\t' || c == '\n' || c == '\r' ==> b
    ensures b ==> !('a' <= c <= 'z') && !('A' <= c <= 'Z') && !('0' <= c <= '9')
    ensures b ==> c != '-' && c != '_' && c != '.'
  {
    c == '\t' || c == '\n' || c == '\U{B}' || c == '\U{C}' || c == '\r' || c == ' '
    || c == '\U{A0}' || c == '\U{1680}' || ('\U{2000}' <= c <= '\U{200A}')
    || c == '\U{2028}' || c == '\U{2029}' || c == '\U{202F}' || c == '\U{205F}'
    || c == '\U{3000}' || c == '\U{FEFF}'
  }

  /** The character class of the split pattern: `\s` whitespace, hyphen,
      underscore and dot. */
  predicate IsSeparator(c: char): (b: bool)
    ensures IsWhitespace(c) ==> b
    ensures c == '-' || c == '_' || c == '.' ==> b
  {
    IsWhitespace(c) || c == '-' || c == '_' || c == '.'
  }

  /** ASCII letters and digits never separate: they always stay inside a
      token. */
  lemma WordCharsNeverSeparate(c: char)
    requires 'a' <= c <= 'z' || 'A' <= c <= 'Z' || '0' <= c <= '9'
    ensures !IsSeparator(c)
  {
  }

  predicate IsAsciiUpper(c: char) {
    'A' <= c <= 'Z'
  }

  predicate NoSeparator(s: string) {
    forall i :: 0 <= i < |s| ==> !IsSeparator(s[i])
  }

  predicate NoAsciiUpper(s: string) {
    forall i :: 0 <= i < |s| ==> !IsAsciiUpper(s[i])
  }

  // ---------------------------------------------------------------------------
  // Lower-casing (ASCII letters only)
  // ---------------------------------------------------------------------------

  function LowerChar(c: char): (r: char)
    ensures !IsAsciiUpper(r)
    ensures IsAsciiUpper(c) ==> r as int == c as int + 32
    ensures !IsAsciiUpper(c) ==> r == c
  {
    if IsAsciiUpper(c) then (c as int + 32) as char else c
  }

  /** `String.prototype.toLowerCase`, restricted to the ASCII letters: the
      result has no upper-case ASCII letter, and every other character is
      left where it was. */
  function ToLower(s: string): (r: string)
    ensures |r| == |s|
    ensures NoAsciiUpper(r)
    ensures forall i :: 0 <= i < |s| && !IsAsciiUpper(s[i]) ==> r[i] == s[i]
    ensures forall i :: 0 <= i < |s| && IsAsciiUpper(s[i]) ==> r[i] as int == s[i] as int + 32
  {
    seq(|s|, i requires 0 <= i < |s| => LowerChar(s[i]))
  }

  /** Lower-casing does not change which characters are separators, so it
      commutes with tokenizing in the positions of the cuts. */
  lemma ToLowerKeepsSeparators(s: string)
    ensures forall i :: 0 <= i < |s| ==> (IsSeparator(ToLower(s)[i]) <==> IsSeparator(s[i]))
  {
  }

  lemma ToLowerIdempotent(s: string)
    ensures ToLower(ToLower(s)) == ToLower(s)
  {
  }

  // ---------------------------------------------------------------------------
  // Removing the extension
  // ---------------------------------------------------------------------------

  const PdfExtension: string := ".pdf"

  /** The last four characters are `.pdf` in any mix of cases. The match is
      anchored at the very end of the name only. */
  predicate EndsWithPdf(s: string): (b: bool)
    ensures b <==>
      && |s| >= 4 && s[|s| - 4] == '.'
      && (s[|s| - 3] == 'p' || s[|s| - 3] == 'P')
      && (s[|s| - 2] == 'd' || s[|s| - 2] == 'D')
      && (s[|s| - 1] == 'f' || s[|s| - 1] == 'F')
  {
    |s| >= 4 && ToLower(s[|s| - 4..]) == PdfExtension
  }

  /** Removes one trailing `.pdf`, matched case-insensitively; any other name
      is returned unchanged. */
  function StripPdf(s: string): (r: string)
    ensures EndsWithPdf(s) ==> |r| == |s| - 4 && s == r + s[|s| - 4..]
    ensures !EndsWithPdf(s) ==> r == s
  {
    if EndsWithPdf(s) then s[..|s| - 4] else s
  }

  /** Stripping undoes appending an extension that spells `.pdf` in any case. */
  lemma StripPdfRoundTrip(base: string, ext: string)
    requires |ext| == 4 && ToLower(ext) == PdfExtension
    ensures StripPdf(base + ext) == base
  {
    assert (base + ext)[|base + ext| - 4..] == ext;
  }

  /** Only ONE extension is removed: `cv.pdf.PDF` becomes `cv.pdf`. */
  lemma StripPdfOnlyOnce(base: string, ext1: string, ext2: string)
    requires |ext1| == 4 && ToLower(ext1) == PdfExtension
    requires |ext2| == 4 && ToLower(ext2) == PdfExtension
    ensures StripPdf(base + ext1 + ext2) == base + ext1
    ensures EndsWithPdf(StripPdf(base + ext1 + ext2))
  {
    StripPdfRoundTrip(base + ext1, ext2);
    assert (base + ext1)[|base + ext1| - 4..] == ext1;
  }

  // ---------------------------------------------------------------------------
  // Splitting at separator runs
  // ---------------------------------------------------------------------------

  /** Skips the maximal run of separators at the front of `s`. */
  function DropSeparators(s: string): (r: string)
    ensures |r| <= |s| && r == s[|s| - |r|..]
    ensures r == [] || !IsSeparator(r[0])
    ensures forall i :: 0 <= i < |s| - |r| ==> IsSeparator(s[i])
  {
    if s != [] && IsSeparator(s[0]) then DropSeparators(s[1..]) else s
  }

  /** `String.prototype.split` with a pattern that matches one or more
      separators: the pieces between maximal runs of separators, in order.
      The string is never dropped: an empty name gives `[""]`, and a
      separator at either end gives an empty first or last piece. */
  function Split(s: string): (r: seq<string>)
    ensures |r| >= 1
    decreases |s|
  {
    if s == [] then [""]
    else if IsSeparator(s[0]) then [""] + Split(DropSeparators(s[1..]))
    else
      var t := Split(s[1..]);
      [[s[0]] + t[0]] + t[1..]
  }

  /** Every character of every piece is a character of the string, and none
      is a separator. */
  predicate PiecesFrom(r: seq<string>, s: string) {
    forall i, k :: 0 <= i < |r| && 0 <= k < |r[i]| ==> !IsSeparator(r[i][k]) && r[i][k] in s
  }

  lemma {:induction false} SplitPieces(s: string)
    ensures PiecesFrom(Split(s), s)
    decreases |s|
  {
    var r := Split(s);
    if s == [] {
    } else if IsSeparator(s[0]) {
      var rest := DropSeparators(s[1..]);
      SplitPieces(rest);
      var t := Split(rest);
      assert r == [""] + t;
      forall i, k | 0 <= i < |r| && 0 <= k < |r[i]|
        ensures !IsSeparator(r[i][k]) && r[i][k] in s
      {
        assert r[i] == t[i - 1] && t[i - 1][k] in rest;
      }
    } else {
      var t := Split(s[1..]);
      SplitPieces(s[1..]);
      assert r == [[s[0]] + t[0]] + t[1..];
      forall i, k | 0 <= i < |r| && 0 <= k < |r[i]|
        ensures !IsSeparator(r[i][k]) && r[i][k] in s
      {
        if i == 0 && k == 0 {
          assert r[i][k] == s[0];
        } else if i == 0 {
          assert r[i][k] == t[0][k - 1] && t[0][k - 1] in s[1..];
        } else {
          assert r[i] == t[i] && t[i][k] in s[1..];
        }
      }
    }
  }

  /** What Split can return: at least one piece, no piece holds a separator,
      and only the first and the last piece can be empty. */
  predicate WellFormed(toks: seq<string>) {
    && |toks| >= 1
    && (forall i :: 0 <= i < |toks| ==> NoSeparator(toks[i]))
    && (forall i :: 0 < i < |toks| - 1 ==> toks[i] != "")
  }

  /** Joins pieces with one separator character between neighbours. */
  function Join(toks: seq<string>, sep: char): (s: string)
    requires |toks| >= 1
    ensures toks[0] <= s
  {
    if |toks| == 1 then toks[0] else toks[0] + [sep] + Join(toks[1..], sep)
  }

  /** The first piece is empty exactly when the string is empty or starts
      with a separator. */
  lemma SplitFirstEmpty(s: string)
    ensures Split(s)[0] == "" <==> (s == [] || IsSeparator(s[0]))
  {
  }

  /** A string without separators is split whole, and only such a string
      gives a single piece. */
  lemma {:induction false} SplitWhole(s: string)
    ensures |Split(s)| == 1 <==> NoSeparator(s)
    ensures NoSeparator(s) ==> Split(s) == [s]
    decreases |s|
  {
    if s == [] {
    } else if IsSeparator(s[0]) {
    } else {
      SplitWhole(s[1..]);
      var t := Split(s[1..]);
      assert NoSeparator(s) <==> NoSeparator(s[1..]) by {
        if NoSeparator(s[1..]) {
          forall i | 0 <= i < |s| ensures !IsSeparator(s[i]) {
            if i > 0 { assert s[i] == s[1..][i - 1]; }
          }
        }
      }
      if NoSeparator(s) {
        assert [s[0]] + s[1..] == s;
      }
    }
  }

  /** The last piece of a split. */
  function Last(r: seq<string>): string
    requires |r| >= 1
  {
    r[|r| - 1]
  }

  lemma LastAppend(a: seq<string>, b: seq<string>)
    requires |b| >= 1
    ensures Last(a + b) == Last(b)
  {
  }

  /** The last piece is empty exactly when the string is empty or ends with a
      separator. */
  lemma {:induction false} SplitLastEmpty(s: string)
    ensures Last(Split(s)) == "" <==> (s == [] || IsSeparator(s[|s| - 1]))
    decreases |s|, 1
  {
    if s == [] {
    } else if IsSeparator(s[0]) {
      SplitLastEmptyAfterSeparator(s);
    } else if |Split(s[1..])| > 1 {
      SplitLastEmptyLongTail(s);
    } else {
      SplitLastEmptyOnePiece(s);
    }
  }

  lemma {:induction false} SplitLastEmptyAfterSeparator(s: string)
    requires s != [] && IsSeparator(s[0])
    ensures Last(Split(s)) == "" <==> IsSeparator(s[|s| - 1])
    decreases |s|, 0
  {
    var rest := DropSeparators(s[1..]);
    assert Split(s) == [""] + Split(rest);
    LastAppend([""], Split(rest));
    if rest != [] {
      SplitLastEmpty(rest);
      assert rest[|rest| - 1] == s[|s| - 1];
    } else if |s| > 1 {
      assert IsSeparator(s[1..][|s| - 2]);
    }
  }

  lemma {:induction false} SplitLastEmptyLongTail(s: string)
    requires s != [] && !IsSeparator(s[0]) && |Split(s[1..])| > 1
    ensures Last(Split(s)) == "" <==> IsSeparator(s[|s| - 1])
    decreases |s|, 0
  {
    var tail := s[1..];
    var t := Split(tail);
    SplitLastEmpty(tail);
    assert tail != [];
    assert tail[|tail| - 1] == s[|s| - 1];
    assert Split(s) == [[s[0]] + t[0]] + t[1..];
    LastAppend([[s[0]] + t[0]], t[1..]);
    assert Last(t[1..]) == Last(t);
  }

  lemma SplitLastEmptyOnePiece(s: string)
    requires s != [] && !IsSeparator(s[0]) && |Split(s[1..])| == 1
    ensures Last(Split(s)) != "" && !IsSeparator(s[|s| - 1])
  {
    var tail := s[1..];
    SplitWhole(tail);
    if |s| > 1 {
      assert s[|s| - 1] == tail[|tail| - 1];
    }
  }

  /** Split always returns a well-formed list of pieces. */
  lemma {:induction false} SplitWellFormed(s: string)
    ensures WellFormed(Split(s))
    decreases |s|
  {
    var r := Split(s);
    SplitPieces(s);
    forall i | 0 <= i < |r| ensures NoSeparator(r[i]) {
    }
    if s == [] {
    } else if IsSeparator(s[0]) {
      var rest := DropSeparators(s[1..]);
      SplitWellFormed(rest);
      SplitFirstEmpty(rest);
      assert r == [""] + Split(rest);
    } else {
      SplitWellFormed(s[1..]);
      var t := Split(s[1..]);
      assert r == [[s[0]] + t[0]] + t[1..];
      forall i | 0 < i < |r| - 1 ensures r[i] != "" {
        assert r[i] == t[i];
      }
    }
  }

  /** Prefixing a separator-free word extends the first piece and leaves the
      others alone. */
  lemma {:induction false} SplitPrepend(w: string, s: string)
    requires NoSeparator(w)
    ensures Split(w + s) == [w + Split(s)[0]] + Split(s)[1..]
    decreases |w|
  {
    if w == [] {
      var r := Split(s);
      assert w + s == s && w + r[0] == r[0];
      assert r == [r[0]] + r[1..];
    } else {
      assert (w + s)[0] == w[0];
      assert (w + s)[1..] == w[1..] + s;
      SplitPrepend(w[1..], s);
      assert [w[0]] + (w[1..] + Split(s)[0]) == w + Split(s)[0];
    }
  }

  /** A single separator in front of a string that does not start with one
      opens an empty first piece. */
  lemma SplitAfterSeparator(sep: char, s: string)
    requires IsSeparator(sep)
    requires s == [] || !IsSeparator(s[0])
    ensures Split([sep] + s) == [""] + Split(s)
  {
    assert ([sep] + s)[1..] == s;
  }

  /** Dropping the first piece keeps a list well formed. */
  lemma WellFormedTail(toks: seq<string>)
    requires WellFormed(toks) && |toks| > 1
    ensures WellFormed(toks[1..])
  {
    var tail := toks[1..];
    forall i | 0 < i < |tail| - 1 ensures tail[i] != "" {
      assert tail[i] == toks[i + 1];
    }
    forall i | 0 <= i < |tail| ensures NoSeparator(tail[i]) {
      assert tail[i] == toks[i + 1];
    }
  }

  /** A run of separators cuts only once: a second separator right after
      the first opens no further piece. */
  lemma RunCollapses(c1: char, c2: char, s: string)
    requires IsSeparator(c1) && IsSeparator(c2)
    ensures Split([c1, c2] + s) == Split([c1] + s)
  {
    assert ([c1, c2] + s)[1..] == [c2] + s;
    assert ([c1] + s)[1..] == s;
    assert ([c2] + s)[1..] == s;
  }

  /** Round trip: splitting a well-formed list of pieces joined by any
      separator character gives the pieces back. */
  lemma {:induction false} SplitJoin(toks: seq<string>, sep: char)
    requires WellFormed(toks)
    requires IsSeparator(sep)
    ensures Split(Join(toks, sep)) == toks
    decreases |toks|
  {
    if |toks| == 1 {
      SplitPrepend(toks[0], "");
      assert toks[0] + "" == toks[0];
    } else {
      var tail := toks[1..];
      WellFormedTail(toks);
      var j := Join(tail, sep);
      SplitJoin(tail, sep);
      assert j == [] || !IsSeparator(j[0]) by {
        if toks[1] != "" {
          assert tail[0] == toks[1] && tail[0] <= j;
          assert j[0] == toks[1][0];
          assert NoSeparator(toks[1]);
        } else {
          assert |toks| == 2;
          assert j == tail[0];
        }
      }
      SplitAfterSeparator(sep, j);
      assert Join(toks, sep) == toks[0] + ([sep] + j);
      SplitPrepend(toks[0], [sep] + j);
      assert toks[0] + "" == toks[0];
      assert [toks[0]] + tail == toks;
    }
  }

  /** The characters of a string that are not separators, in order. */
  function RemoveSeparators(s: string): (r: string)
    ensures |r| <= |s| && NoSeparator(r)
  {
    if s == [] then []
    else (if IsSeparator(s[0]) then [] else [s[0]]) + RemoveSeparators(s[1..])
  }

  /** All pieces glued back together, without the separators. */
  function Concat(toks: seq<string>): string {
    if toks == [] then [] else toks[0] + Concat(toks[1..])
  }

  lemma {:induction false} RemoveSeparatorsDrop(s: string)
    ensures RemoveSeparators(DropSeparators(s)) == RemoveSeparators(s)
    decreases |s|
  {
    if s != [] && IsSeparator(s[0]) {
      RemoveSeparatorsDrop(s[1..]);
    }
  }

  /** Splitting loses nothing but the separators, and keeps the order of
      everything else. */
  lemma {:induction false} SplitKeepsText(s: string)
    ensures Concat(Split(s)) == RemoveSeparators(s)
    decreases |s|
  {
    if s == [] {
    } else if IsSeparator(s[0]) {
      var rest := DropSeparators(s[1..]);
      SplitKeepsText(rest);
      RemoveSeparatorsDrop(s[1..]);
      assert ([""] + Split(rest))[1..] == Split(rest);
    } else {
      var t := Split(s[1..]);
      SplitKeepsText(s[1..]);
      var r := [[s[0]] + t[0]] + t[1..];
      assert r[1..] == t[1..];
      assert Concat(t) == t[0] + Concat(t[1..]);
      assert Concat(r) == [s[0]] + t[0] + Concat(t[1..]);
    }
  }

  // ---------------------------------------------------------------------------
  // The tokenizer
  // ---------------------------------------------------------------------------

  /** The keywords of a file name: strip one `.pdf` extension, lower-case,
      then split at separator runs. */
  function Tokenize(name: string): (toks: seq<string>)
    ensures |toks| >= 1
  {
    Split(ToLower(StripPdf(name)))
  }

  /** Token shape: never empty, no token holds a separator, every token is
      lower case, and only the first or last token can be the empty string. */
  lemma TokenShape(name: string)
    ensures var toks := Tokenize(name);
      && WellFormed(toks)
      && (forall i :: 0 <= i < |toks| ==> NoAsciiUpper(toks[i]))
  {
    var low := ToLower(StripPdf(name));
    SplitWellFormed(low);
    SplitPieces(low);
    var toks := Split(low);
    forall i, k | 0 <= i < |toks| && 0 <= k < |toks[i]| ensures !IsAsciiUpper(toks[i][k]) {
      assert toks[i][k] in low;
      var j :| 0 <= j < |low| && low[j] == toks[i][k];
    }
  }

  /** A name without separators (once `.pdf` is removed) is one token: the
      whole lower-cased name. */
  lemma TokenizeWhole(name: string)
    requires NoSeparator(StripPdf(name))
    ensures Tokenize(name) == [ToLower(StripPdf(name))]
  {
    var base := StripPdf(name);
    ToLowerKeepsSeparators(base);
    SplitWhole(ToLower(base));
  }

  /** A name that starts with a separator gives a leading empty token, which
      is kept. */
  lemma TokenizeLeadingSeparator(name: string)
    requires StripPdf(name) != [] && IsSeparator(StripPdf(name)[0])
    ensures Tokenize(name)[0] == ""
  {
    ToLowerKeepsSeparators(StripPdf(name));
    SplitFirstEmpty(ToLower(StripPdf(name)));
  }

  /** A name whose stem ends with a separator gives a trailing empty token,
      which is kept. */
  lemma TokenizeTrailingSeparator(name: string)
    requires var base := StripPdf(name); base != [] && IsSeparator(base[|base| - 1])
    ensures Last(Tokenize(name)) == ""
  {
    var base := StripPdf(name);
    ToLowerKeepsSeparators(base);
    SplitLastEmpty(ToLower(base));
  }

  /** Lower-casing leaves a string without upper-case letters alone. */
  lemma ToLowerNoUpper(s: string)
    requires NoAsciiUpper(s)
    ensures ToLower(s) == s
  {
  }

  lemma {:induction false} JoinNoUpper(toks: seq<string>, sep: char)
    requires |toks| >= 1 && !IsAsciiUpper(sep)
    requires forall i :: 0 <= i < |toks| ==> NoAsciiUpper(toks[i])
    ensures NoAsciiUpper(Join(toks, sep))
    decreases |toks|
  {
    if |toks| > 1 {
      JoinNoUpper(toks[1..], sep);
      var rest := Join(toks[1..], sep);
      var s := toks[0] + [sep] + rest;
      forall i | 0 <= i < |s| ensures !IsAsciiUpper(s[i]) {
        if i < |toks[0]| {
        } else if i > |toks[0]| {
          assert s[i] == rest[i - |toks[0]| - 1];
        }
      }
    }
  }

  /** A name made of lower-case words joined by separators, with a `.pdf`
      extension, tokenizes back into those words. */
  lemma TokenizeJoined(toks: seq<string>, sep: char, ext: string)
    requires WellFormed(toks) && IsSeparator(sep)
    requires forall i :: 0 <= i < |toks| ==> NoAsciiUpper(toks[i])
    requires |ext| == 4 && ToLower(ext) == PdfExtension
    ensures Tokenize(Join(toks, sep) + ext) == toks
  {
    var base := Join(toks, sep);
    StripPdfRoundTrip(base, ext);
    JoinNoUpper(toks, sep);
    ToLowerNoUpper(base);
    SplitJoin(toks, sep);
  }
}
