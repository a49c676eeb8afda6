/**
 The two string rules around the page loop: the readiness test on the
 output-name entry and the default output name derived from the chosen
 file's name.
 */
module Names {

  /** Python's `str.isspace`: the characters `str.strip()` removes. */
  predicate IsWhitespace(c: char) {
    var n := c as int;
    || 0x09 <= n <= 0x0D || 0x1C <= n <= 0x20 || n == 0x85 || n == 0xA0
    || n == 0x1680 || 0x2000 <= n <= 0x200A || n == 0x2028 || n == 0x2029
    || n == 0x202F || n == 0x205F || n == 0x3000
  }

  /** Drops leading whitespace: what is left is the suffix starting at the first non-blank. */
  function TrimStart(s: string): (r: string)
    ensures |r| <= |s| && r == s[|s| - |r|..]
    ensures forall k :: 0 <= k < |s| - |r| ==> IsWhitespace(s[k])
    ensures r == [] || !IsWhitespace(r[0])
    decreases |s|
  {
    if s != [] && IsWhitespace(s[0]) then TrimStart(s[1..]) else s
  }

  /** Drops trailing whitespace: what is left is the prefix ending at the last non-blank. */
  function TrimEnd(s: string): (r: string)
    ensures |r| <= |s| && r == s[..|r|]
    ensures forall k :: |r| <= k < |s| ==> IsWhitespace(s[k])
    ensures r == [] || !IsWhitespace(r[|r| - 1])
    decreases |s|
  {
    if s != [] && IsWhitespace(s[|s| - 1]) then TrimEnd(s[..|s| - 1]) else s
  }

  /** Python's `str.strip()` with no argument. */
  function Strip(s: string): (r: string)
    ensures r == [] || (!IsWhitespace(r[0]) && !IsWhitespace(r[|r| - 1]))
  {
    TrimEnd(TrimStart(s))
  }

  /** `r` is the slice of `s` at offset `i`, and everything of `s` around it is whitespace. */
  predicate IsStripOf(s: string, r: string, i: nat) {
    && i + |r| <= |s|
    && r == s[i..i + |r|]
    && (forall k :: 0 <= k < i ==> IsWhitespace(s[k]))
    && (forall k :: i + |r| <= k < |s| ==> IsWhitespace(s[k]))
  }

  /**
   Stripping removes only whitespace, and only at the two ends: the result is
   a slice of the input with nothing but whitespace around it.
   */
  lemma StripIsSlice(s: string)
    ensures exists i :: 0 <= i <= |s| && IsStripOf(s, Strip(s), i)
  {
    var t := TrimStart(s);
    var r := TrimEnd(t);
    StripAt(s, t, r);
    assert IsStripOf(s, Strip(s), |s| - |t|);
  }

  /** Blanks dropped in front of `t` and behind `r` leave `r` as a slice with only blanks around it. */
  lemma StripAt(s: string, t: string, r: string)
    requires |t| <= |s| && t == s[|s| - |t|..]
    requires forall k :: 0 <= k < |s| - |t| ==> IsWhitespace(s[k])
    requires |r| <= |t| && r == t[..|r|]
    requires forall k :: |r| <= k < |t| ==> IsWhitespace(t[k])
    ensures IsStripOf(s, r, |s| - |t|)
  {
    var i := |s| - |t|;
    assert r == s[i..i + |r|];
    forall k | i + |r| <= k < |s|
      ensures IsWhitespace(s[k])
    {
      assert s[k] == t[k - i];
    }
  }

  /** Python's `str.lower()` on one character; only ASCII letters are mapped. */
  function LowerChar(c: char): char {
    if 'A' <= c <= 'Z' then (c as int - 'A' as int + 'a' as int) as char else c
  }

  /** Python's `str.lower()`, character by character. */
  function Lower(s: string): string {
    seq(|s|, k requires 0 <= k < |s| => LowerChar(s[k]))
  }

  /** Python's `str.endswith`. */
  predicate EndsWith(s: string, suffix: string) {
    |suffix| <= |s| && s[|s| - |suffix|..] == suffix
  }

  /** `pat` occurs in `s` starting at index `i`. */
  predicate OccursAt(s: string, pat: string, i: nat) {
    i + |pat| <= |s| && s[i..i + |pat|] == pat
  }

  predicate Occurs(s: string, pat: string) {
    exists i :: 0 <= i <= |s| && OccursAt(s, pat, i)
  }

  /**
   Python's `str.replace(pat, rep)`: scanning left to right, every
   occurrence of `pat` that does not overlap an earlier replaced one is
   replaced by `rep`.
   */
  function ReplaceAll(s: string, pat: string, rep: string): string
    requires pat != []
    decreases |s|
  {
    if |s| < |pat| then s
    else if s[..|pat|] == pat then rep + ReplaceAll(s[|pat|..], pat, rep)
    else [s[0]] + ReplaceAll(s[1..], pat, rep)
  }

  /** A text in which the pattern does not occur comes back unchanged. */
  lemma {:induction false} ReplaceAllAbsent(s: string, pat: string, rep: string)
    requires pat != [] && !Occurs(s, pat)
    ensures ReplaceAll(s, pat, rep) == s
    decreases |s|
  {
    if |s| < |pat| {
    } else if s[..|pat|] == pat {
      assert OccursAt(s, pat, 0);
    } else {
      forall i: nat | OccursAt(s[1..], pat, i) ensures false {
        assert s[i + 1..i + 1 + |pat|] == s[1..][i..i + |pat|];
        assert OccursAt(s, pat, i + 1);
      }
      ReplaceAllAbsent(s[1..], pat, rep);
    }
  }

  /** The extension the readiness rule looks for and the default name replaces. */
  const Pdf := ".pdf"

  /** What each occurrence of the extension becomes in the default name. */
  const OneColumnPdf := " 1column.pdf"

  /**
   The readiness rule: an input file is chosen, and the stripped entry is
   longer than four characters and ends in ".pdf" in any mix of case.
   */
  function IsReady(inputPath: string, entry: string): (ready: bool)
    ensures ready <==>
      var t := Strip(entry);
      && inputPath != []
      && |t| > 4
      && t[|t| - 4] == '.'
      && t[|t| - 3] in {'p', 'P'}
      && t[|t| - 2] in {'d', 'D'}
      && t[|t| - 1] in {'f', 'F'}
  {
    var nameText := Strip(entry);
    LowerEndsWithPdf(nameText);
    var hasFile := inputPath != [];
    var hasName := |nameText| > 4 && EndsWith(Lower(nameText), Pdf);
    hasFile && hasName
  }

  /** The characters that lowercase to the letters of ".pdf". */
  lemma LowerCharPdf(c: char)
    ensures LowerChar(c) == '.' <==> c == '.'
    ensures LowerChar(c) == 'p' <==> c in {'p', 'P'}
    ensures LowerChar(c) == 'd' <==> c in {'d', 'D'}
    ensures LowerChar(c) == 'f' <==> c in {'f', 'F'}
  {
  }

  /** A lowercased text ends in ".pdf" exactly when the text ends in ".pdf" in some mix of case. */
  lemma LowerEndsWithPdf(t: string)
    ensures |t| >= 4 ==> (EndsWith(Lower(t), Pdf) <==>
      && t[|t| - 4] == '.'
      && t[|t| - 3] in {'p', 'P'}
      && t[|t| - 2] in {'d', 'D'}
      && t[|t| - 1] in {'f', 'F'})
  {
    if |t| >= 4 {
      var n := |t|;
      var l := Lower(t);
      var tail := l[n - 4..];
      var a, b, c, d := l[n - 4], l[n - 3], l[n - 2], l[n - 1];
      assert |tail| == 4 && tail[0] == a && tail[1] == b && tail[2] == c && tail[3] == d;
      assert a == LowerChar(t[n - 4]) && b == LowerChar(t[n - 3]);
      assert c == LowerChar(t[n - 2]) && d == LowerChar(t[n - 1]);
      if a == '.' && b == 'p' && c == 'd' && d == 'f' {
        assert tail == Pdf;
      }
      if tail == Pdf {
        assert a == Pdf[0] && b == Pdf[1] && c == Pdf[2] && d == Pdf[3];
      }
      LowerCharPdf(t[n - 4]);
      LowerCharPdf(t[n - 3]);
      LowerCharPdf(t[n - 2]);
      LowerCharPdf(t[n - 1]);
    }
  }

  /** The default output name offered after a file is chosen. */
  function DefaultOutputName(filename: string): string {
    ReplaceAll(filename, Pdf, OneColumnPdf)
  }

  /**
   The first character of `pat` does not occur again inside `pat` (true of
   ".pdf"); such a pattern cannot overlap itself.
   */
  predicate HeadDoesNotRecur(pat: string) {
    forall k :: 0 < k < |pat| ==> pat[k] != pat[0]
  }

  /**
   Every occurrence is replaced, wherever it stands: when the first character
   of `pat` does not recur in it, an occurrence between `u` and `v` is never
   consumed by an earlier match, so it is replaced on its own and the text on
   either side is processed independently.
   */
  lemma {:induction false} ReplaceAllConcat(u: string, pat: string, rep: string, v: string)
    requires pat != [] && HeadDoesNotRecur(pat)
    ensures ReplaceAll(u + pat + v, pat, rep)
         == ReplaceAll(u, pat, rep) + rep + ReplaceAll(v, pat, rep)
    decreases |u|, 1
  {
    var s := u + pat + v;
    if u == [] {
      assert s[..|pat|] == pat && s[|pat|..] == v;
    } else if |u| < |pat| {
      ReplaceAllConcatShort(u, pat, rep, v);
    } else if s[..|pat|] == pat {
      assert u[..|pat|] == s[..|pat|];
      assert s[|pat|..] == u[|pat|..] + pat + v;
      ReplaceAllConcat(u[|pat|..], pat, rep, v);
      assert ReplaceAll(u, pat, rep) == rep + ReplaceAll(u[|pat|..], pat, rep);
    } else {
      assert u[..|pat|] == s[..|pat|];
      assert s[1..] == u[1..] + pat + v;
      ReplaceAllConcat(u[1..], pat, rep, v);
      assert ReplaceAll(u, pat, rep) == [u[0]] + ReplaceAll(u[1..], pat, rep);
    }
  }

  /** The case of `ReplaceAllConcat` where `u` is shorter than `pat`: `u` is copied as is. */
  lemma {:induction false} ReplaceAllConcatShort(u: string, pat: string, rep: string, v: string)
    requires HeadDoesNotRecur(pat) && 0 < |u| < |pat|
    ensures ReplaceAll(u + pat + v, pat, rep) == u + rep + ReplaceAll(v, pat, rep)
    decreases |u|, 0
  {
    var s := u + pat + v;
    // a match at the start would put pat[0] inside pat again
    assert s[..|pat|] != pat by {
      assert s[..|pat|][|u|] == pat[0] != pat[|u|];
    }
    assert ReplaceAll(s, pat, rep) == [s[0]] + ReplaceAll(s[1..], pat, rep);
    assert s[1..] == u[1..] + pat + v;
    ReplaceAllConcat(u[1..], pat, rep, v);
    assert ReplaceAll(u[1..], pat, rep) == u[1..];
    assert [u[0]] + u[1..] == u;
  }

  /** A trailing occurrence is replaced on its own. */
  lemma ReplaceAllTrailing(u: string, pat: string, rep: string)
    requires pat != [] && HeadDoesNotRecur(pat)
    ensures ReplaceAll(u + pat, pat, rep) == ReplaceAll(u, pat, rep) + rep
  {
    ReplaceAllConcat(u, pat, rep, []);
    assert u + pat + [] == u + pat;
  }

  /**
   Every ".pdf" of a name becomes " 1column.pdf", wherever it stands: the
   default for `u + ".pdf" + v` is the default for `u`, then " 1column.pdf",
   then the default for `v`.
   */
  lemma DefaultOutputNameSplits(u: string, v: string)
    ensures DefaultOutputName(u + Pdf + v)
         == DefaultOutputName(u) + OneColumnPdf + DefaultOutputName(v)
  {
    assert HeadDoesNotRecur(Pdf) by {
      assert Pdf == ['.', 'p', 'd', 'f'];
    }
    ReplaceAllConcat(u, Pdf, OneColumnPdf, v);
  }

  /**
   The replacement is case-sensitive but the readiness rule is not: for
   "Book.PDF" the default name is the chosen name itself, and it is accepted,
   so the output would be written over the input file.
   */
  lemma UpperCaseExtensionKept(inputPath: string)
    requires inputPath != []
    ensures DefaultOutputName("Book.PDF") == "Book.PDF"
    ensures IsReady(inputPath, "Book.PDF")
  {
    UpperCaseNameUnchanged("Book.PDF");
    UpperCaseNameReady(inputPath, "Book.PDF");
  }

  /** A name in which no lower-case 'p' occurs keeps its default name. */
  lemma UpperCaseNameUnchanged(s: string)
    requires forall k :: 0 <= k < |s| ==> s[k] != 'p'
    ensures DefaultOutputName(s) == s
  {
    forall i | 0 <= i && i + |Pdf| <= |s|
      ensures !OccursAt(s, Pdf, i)
    {
      assert s[i..i + |Pdf|][1] == s[i + 1] != Pdf[1];
    }
    DefaultOutputNameUnchanged(s);
  }

  /** A name with no blanks at its ends and at least five characters, ending in ".PDF", is accepted. */
  lemma UpperCaseNameReady(inputPath: string, s: string)
    requires inputPath != [] && |s| > 4 && !IsWhitespace(s[0]) && !IsWhitespace(s[|s| - 1])
    requires s[|s| - 4..] == ".PDF"
    ensures IsReady(inputPath, s)
  {
    StripKeepsTail(s, 0);
    var n := |s|;
    assert s[n - 4] == s[n - 4..][0] && s[n - 3] == s[n - 4..][1];
    assert s[n - 2] == s[n - 4..][2] && s[n - 1] == s[n - 4..][3];
  }

  /**
   A replacement at least as long as the pattern never shortens the text,
   and a strictly longer one lengthens every text the pattern occurs in.
   */
  lemma {:induction false} ReplaceAllLength(s: string, pat: string, rep: string)
    requires pat != [] && |rep| >= |pat|
    ensures |ReplaceAll(s, pat, rep)| >= |s|
    ensures Occurs(s, pat) && |rep| > |pat| ==> |ReplaceAll(s, pat, rep)| > |s|
    decreases |s|
  {
    if |s| < |pat| {
    } else if s[..|pat|] == pat {
      ReplaceAllLength(s[|pat|..], pat, rep);
    } else {
      ReplaceAllLength(s[1..], pat, rep);
      if Occurs(s, pat) {
        var i :| 0 <= i <= |s| && OccursAt(s, pat, i);
        assert i != 0;
        assert s[1..][i - 1..i - 1 + |pat|] == s[i..i + |pat|];
        assert OccursAt(s[1..], pat, i - 1);
      }
    }
  }

  /** The default name equals the chosen name exactly when ".pdf" does not occur in it. */
  lemma DefaultOutputNameUnchanged(filename: string)
    ensures DefaultOutputName(filename) == filename <==> !Occurs(filename, Pdf)
  {
    ReplaceAllLength(filename, Pdf, OneColumnPdf);
    if !Occurs(filename, Pdf) {
      ReplaceAllAbsent(filename, Pdf, OneColumnPdf);
    }
  }

  /** A name ending in ".pdf" gets a default ending in " 1column.pdf". */
  lemma DefaultOutputNameSuffix(filename: string)
    requires EndsWith(filename, Pdf)
    ensures DefaultOutputName(filename) == DefaultOutputName(filename[..|filename| - 4]) + OneColumnPdf
    ensures EndsWith(DefaultOutputName(filename), OneColumnPdf)
  {
    var u := filename[..|filename| - 4];
    assert u + Pdf == filename;
    ReplaceAllTrailing(u, Pdf, OneColumnPdf);
  }

  /** Stripping leaves alone a text whose first and last characters are not blank. */
  lemma StripKeepsTail(s: string, k: nat)
    requires k < |s| && !IsWhitespace(s[k]) && !IsWhitespace(s[|s| - 1])
    ensures |Strip(s)| >= |s| - k
    ensures Strip(s) == s[|s| - |Strip(s)|..]
  {
    var t := TrimStart(s);
    assert |s| - |t| <= k;
    var r := TrimEnd(t);
    assert t[|t| - 1] == s[|s| - 1];
    assert |r| == |t|;
  }

  /** The characters of " 1column.pdf" that the proof below relies on. */
  lemma OneColumnTail(d: string)
    requires EndsWith(d, OneColumnPdf)
    ensures var n := |d|;
      && n >= 12 && d[n - 11] == '1'
      && d[n - 4] == '.' && d[n - 3] == 'p' && d[n - 2] == 'd' && d[n - 1] == 'f'
  {
    var n := |d|;
    var tail := d[n - 12..];
    assert tail == OneColumnPdf;
    assert d[n - 11] == tail[1];
    assert d[n - 4] == tail[8] && d[n - 3] == tail[9] && d[n - 2] == tail[10] && d[n - 1] == tail[11];
  }

  /** Any entry ending in " 1column.pdf" passes the readiness rule once a file is chosen. */
  lemma OneColumnNameReady(inputPath: string, d: string)
    requires inputPath != [] && EndsWith(d, OneColumnPdf)
    ensures IsReady(inputPath, d)
  {
    var n := |d|;
    OneColumnTail(d);
    assert !IsWhitespace('1') && !IsWhitespace('f');
    StripKeepsTail(d, n - 11);
    var t := Strip(d);
    assert t == d[n - |t|..];
    assert t[|t| - 4] == d[n - 4] && t[|t| - 3] == d[n - 3] && t[|t| - 2] == d[n - 2] && t[|t| - 1] == d[n - 1];
  }

  /**
   Choosing a file whose name ends in ".pdf" fills the entry with a name the
   readiness rule accepts.
   */
  lemma DefaultOutputNameReady(inputPath: string, filename: string)
    requires inputPath != [] && EndsWith(filename, Pdf)
    ensures IsReady(inputPath, DefaultOutputName(filename))
  {
    DefaultOutputNameSuffix(filename);
    OneColumnNameReady(inputPath, DefaultOutputName(filename));
  }

  /** Stripping twice is stripping once. */
  lemma StripIdempotent(s: string)
    ensures Strip(Strip(s)) == Strip(s)
  {
    var t := Strip(s);
    if t != [] {
      assert |TrimStart(t)| == |t|;
      assert |TrimEnd(t)| == |t|;
    }
  }

  /** Blanks around the entry never change the readiness decision. */
  lemma IsReadyIgnoresPadding(inputPath: string, entry: string)
    ensures IsReady(inputPath, Strip(entry)) == IsReady(inputPath, entry)
  {
    StripIdempotent(entry);
  }

  /** The two pieces of form state the rules read: the chosen input path and the name entry. */
  datatype Form = Form(inputPath: string, nameEntry: string)

  /**
   Choosing a file. `filePath` is what the dialog returned (empty when it was
   cancelled) and `filename` its last path component. A chosen file always
   puts its default output name in the entry, and a chosen ".pdf" file always
   leaves the form ready to process.
   */
  function PickFile(form: Form, filePath: string, filename: string): (r: Form)
    ensures filePath == [] ==> r == form
    ensures filePath != [] ==> r.inputPath == filePath
    ensures filePath != [] ==> r.nameEntry == DefaultOutputName(filename)
    ensures filePath != [] && !Occurs(filename, Pdf) ==> r.nameEntry == filename
    ensures filePath != [] && EndsWith(filename, Pdf) ==> IsReady(r.inputPath, r.nameEntry)
  {
    if filePath == [] then form
    else
      DefaultOutputNameUnchanged(filename);
      assert EndsWith(filename, Pdf) ==> IsReady(filePath, DefaultOutputName(filename)) by {
        if EndsWith(filename, Pdf) {
          DefaultOutputNameReady(filePath, filename);
        }
      }
      Form(filePath, DefaultOutputName(filename))
  }
}
