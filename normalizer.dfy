/** The text normaliser `clean_text` of the resume matcher, over ASCII.

    It runs three rewrites in order: fold to lower case; replace every
    non-word character (anything but a letter, a digit or `_`) by one space;
    replace every run of whitespace by one space.  Nothing is trimmed.
 */
module Normalizer {

  // ---------------------------------------------------------------------------
  // Character classes
  // ---------------------------------------------------------------------------

  predicate IsUpper(c: char) { 'A' <= c <= 'Z' }

  predicate IsLower(c: char) { 'a' <= c <= 'z' }

  predicate IsDigit(c: char) { '0' <= c <= '9' }

  /** A character matched by the regular-expression class `\w` (ASCII). */
  predicate IsWordChar(c: char) { IsUpper(c) || IsLower(c) || IsDigit(c) || c == '_' }

  /** A character matched by `\s`: the ASCII whitespace of Python's `str.isspace`
      (tab, line feed, vertical tab, form feed, carriage return, the four
      information separators 0x1C-0x1F, and the space). */
  predicate IsSpace(c: char) { 9 <= c as int <= 13 || 28 <= c as int <= 32 }

  /** A character that may appear in normalised text. */
  predicate IsCleanChar(c: char) { IsLower(c) || IsDigit(c) || c == '_' || c == ' ' }

  /** No two adjacent spaces. */
  predicate NoDoubleSpace(s: string)
  {
    forall i :: 0 <= i < |s| - 1 ==> !(s[i] == ' ' && s[i + 1] == ' ')
  }

  /** The shape of every output of `CleanText`. */
  predicate IsClean(s: string)
  {
    (forall c :: c in s ==> IsCleanChar(c)) && NoDoubleSpace(s)
  }

  // ---------------------------------------------------------------------------
  // The three rewrites
  // ---------------------------------------------------------------------------

  /** `str.lower()` on one ASCII character: an upper-case letter becomes the
      same letter in lower case; every other character is unchanged. */
  function LowerChar(c: char): (r: char)
    ensures !IsUpper(r)
    ensures IsWordChar(r) == IsWordChar(c)
    ensures IsUpper(c) ==> IsLower(r) && r as int - 'a' as int == c as int - 'A' as int
    ensures !IsUpper(c) ==> r == c
  {
    if IsUpper(c) then (c as int + 32) as char else c
  }

  /** Step 1, `text.lower()`. */
  function Lower(s: string): string
  {
    seq(|s|, i requires 0 <= i < |s| => LowerChar(s[i]))
  }

  function BlankChar(c: char): (r: char)
    ensures IsWordChar(c) ==> r == c
    ensures !IsWordChar(c) ==> r == ' '
  {
    if IsWordChar(c) then c else ' '
  }

  /** Step 2, `re.sub(r'\W', ' ', text)`. */
  function Blank(s: string): string
  {
    seq(|s|, i requires 0 <= i < |s| => BlankChar(s[i]))
  }

  /** What one input character of a run contributes: whitespace becomes a space. */
  function Squash(c: char): char
  {
    if IsSpace(c) then ' ' else c
  }

  /** Step 3, `re.sub(r'\s+', ' ', text)`: every maximal run of whitespace
      becomes a single space; every other character is kept. */
  function Collapse(s: string): string
  {
    if s == [] then []
    else if |s| > 1 && IsSpace(s[0]) && IsSpace(s[1]) then Collapse(s[1..])
    else [Squash(s[0])] + Collapse(s[1..])
  }

  /** `clean_text(text)`. */
  function CleanText(text: string): string
  {
    Collapse(Blank(Lower(text)))
  }

  // ---------------------------------------------------------------------------
  // Helpers for the ordering property
  // ---------------------------------------------------------------------------

  /** The word characters of `s`, in order. */
  function WordChars(s: string): (r: string)
    ensures forall c :: c in r ==> IsWordChar(c) && c in s
  {
    if s == [] then []
    else if IsWordChar(s[0]) then [s[0]] + WordChars(s[1..])
    else WordChars(s[1..])
  }

  /** `s` with every space deleted. */
  function DropSpaces(s: string): (r: string)
    ensures ' ' !in r
  {
    if s == [] then []
    else if s[0] == ' ' then DropSpaces(s[1..])
    else [s[0]] + DropSpaces(s[1..])
  }

  // ---------------------------------------------------------------------------
  // Properties of clean_text
  // ---------------------------------------------------------------------------

  /** Collapse never lengthens its input, keeps its first and last character
      (whitespace becoming a space) and leaves no two spaces side by side. */
  lemma {:induction false} CollapseShape(s: string)
    ensures var r := Collapse(s);
      && |r| <= |s|
      && (s != [] ==> r != [] && r[0] == Squash(s[0]) && r[|r| - 1] == Squash(s[|s| - 1]))
      && NoDoubleSpace(r)
  {
    if s != [] {
      var t := s[1..];
      CollapseShape(t);
      if |s| > 1 && IsSpace(s[0]) && IsSpace(s[1]) {
        assert Collapse(s) == Collapse(t);
        assert t[|t| - 1] == s[|s| - 1];
      } else {
        var r := [Squash(s[0])] + Collapse(t);
        assert Collapse(s) == r;
        assert t != [] ==> t[|t| - 1] == s[|s| - 1] && r[1] == Squash(s[1]);
        assert t != [] && r[0] == ' ' ==> r[1] != ' ';
        assert forall i :: 1 <= i < |r| ==> r[i] == Collapse(t)[i - 1];
      }
    }
  }

  /** Collapse emits spaces and characters of its input that are not whitespace. */
  lemma {:induction false} CollapseChars(s: string)
    ensures forall c :: c in Collapse(s) ==> c == ' ' || (c in s && !IsSpace(c))
  {
    if s != [] {
      CollapseChars(s[1..]);
      assert forall c :: c in s[1..] ==> c in s;
    }
  }

  /** Every output character is a lower-case letter, a digit, `_` or a space:
      in particular no upper-case letter survives. */
  lemma CleanTextChars(text: string)
    ensures forall c :: c in CleanText(text) ==> IsCleanChar(c) && !IsUpper(c)
  {
    var b := Blank(Lower(text));
    CollapseChars(b);
    forall c | c in b ensures c == ' ' || (IsCleanChar(c) && !IsSpace(c)) {
      var i :| 0 <= i < |b| && b[i] == c;
      assert b[i] == BlankChar(Lower(text)[i]);
    }
  }

  /** The output never holds two consecutive spaces, so it is in normal form. */
  lemma CleanTextIsClean(text: string)
    ensures IsClean(CleanText(text))
  {
    CollapseShape(Blank(Lower(text)));
    CleanTextChars(text);
  }

  /** Blank keeps the word characters and turns the rest into spaces, so
      deleting the spaces from it leaves exactly the word characters. */
  lemma {:induction false} DropSpacesBlank(s: string)
    ensures DropSpaces(Blank(s)) == WordChars(s)
  {
    if s != [] {
      assert Blank(s)[1..] == Blank(s[1..]);
      DropSpacesBlank(s[1..]);
    }
  }

  /** Collapsing whitespace that consists only of spaces does not change
      which non-space characters appear, nor their order. */
  lemma {:induction false} DropSpacesCollapse(s: string)
    requires forall c :: c in s && IsSpace(c) ==> c == ' '
    ensures DropSpaces(Collapse(s)) == DropSpaces(s)
  {
    if s == [] {
    } else if |s| > 1 && IsSpace(s[0]) && IsSpace(s[1]) {
      assert s[0] == ' ';
      DropSpacesCollapse(s[1..]);
    } else {
      assert s[0] in s;
      DropSpacesCollapse(s[1..]);
      assert ([Squash(s[0])] + Collapse(s[1..]))[1..] == Collapse(s[1..]);
    }
  }

  /** Word characters are preserved in order: deleting the spaces from the
      output gives the lower-cased input with its non-word characters removed. */
  lemma WordCharsPreserved(text: string)
    ensures DropSpaces(CleanText(text)) == WordChars(Lower(text))
  {
    var b := Blank(Lower(text));
    forall c | c in b && IsSpace(c) ensures c == ' ' {
      var i :| 0 <= i < |b| && b[i] == c;
      assert b[i] == BlankChar(Lower(text)[i]);
    }
    DropSpacesCollapse(b);
    DropSpacesBlank(Lower(text));
  }

  /** No trimming: a non-word first (last) character gives an output that
      starts (ends) with exactly one space, and a word first (last) character
      is kept, lower-cased, in place. */
  lemma CleanTextEnds(text: string)
    requires text != []
    ensures var r := CleanText(text);
      && r != []
      && (!IsWordChar(text[0]) ==> r[0] == ' ' && (|r| > 1 ==> r[1] != ' '))
      && (IsWordChar(text[0]) ==> r[0] == LowerChar(text[0]))
      && (!IsWordChar(text[|text| - 1]) ==> r[|r| - 1] == ' ' && (|r| > 1 ==> r[|r| - 2] != ' '))
      && (IsWordChar(text[|text| - 1]) ==> r[|r| - 1] == LowerChar(text[|text| - 1]))
  {
    var b := Blank(Lower(text));
    CollapseShape(b);
    assert b[0] == BlankChar(LowerChar(text[0]));
    assert b[|b| - 1] == BlankChar(LowerChar(text[|text| - 1]));
  }

  /** A suffix of text in normal form is in normal form. */
  lemma CleanTail(s: string)
    requires s != [] && IsClean(s)
    ensures IsClean(s[1..])
  {
    forall i | 0 <= i < |s[1..]| - 1 ensures !(s[1..][i] == ' ' && s[1..][i + 1] == ' ') {
      assert s[1..][i] == s[i + 1] && s[1..][i + 1] == s[i + 2];
    }
  }

  /** Collapse leaves text in normal form untouched. */
  lemma {:induction false} CollapseClean(s: string)
    requires IsClean(s)
    ensures Collapse(s) == s
  {
    if s != [] {
      assert s[0] in s;
      assert IsCleanChar(s[0]);
      assert Squash(s[0]) == s[0];
      CleanTail(s);
      CollapseClean(s[1..]);
      if |s| > 1 {
        assert s[1] in s;
        assert !(s[0] == ' ' && s[1] == ' ');
        assert !(IsSpace(s[0]) && IsSpace(s[1]));
      }
      assert Collapse(s) == [s[0]] + s[1..];
    }
  }

  /** The fixed points of `CleanText` are exactly the texts in normal form. */
  lemma CleanTextFixedPoint(text: string)
    ensures CleanText(text) == text <==> IsClean(text)
  {
    if IsClean(text) {
      assert Lower(text) == text by {
        forall i | 0 <= i < |text| ensures Lower(text)[i] == text[i] {
          assert text[i] in text;
        }
      }
      assert Blank(text) == text by {
        forall i | 0 <= i < |text| ensures Blank(text)[i] == text[i] {
          assert text[i] in text;
        }
      }
      CollapseClean(text);
    } else {
      CleanTextIsClean(text);
    }
  }

  /** `clean_text(clean_text(x)) == clean_text(x)`. */
  lemma CleanTextIdempotent(text: string)
    ensures CleanText(CleanText(text)) == CleanText(text)
  {
    CleanTextIsClean(text);
    CleanTextFixedPoint(CleanText(text));
  }

  /** Lower-casing works character by character. */
  lemma LowerAppend(a: string, b: string)
    ensures Lower(a + b) == Lower(a) + Lower(b)
  {
    assert forall i :: 0 <= i < |a + b| ==> Lower(a + b)[i] == (Lower(a) + Lower(b))[i];
  }

  /** Blanking works character by character. */
  lemma BlankAppend(a: string, b: string)
    ensures Blank(a + b) == Blank(a) + Blank(b)
  {
    assert forall i :: 0 <= i < |a + b| ==> Blank(a + b)[i] == (Blank(a) + Blank(b))[i];
  }

  /** Collapsing can be done piecewise at any cut that does not split a run
      of whitespace. */
  lemma {:induction false} CollapseAppend(a: string, b: string)
    requires a == [] || b == [] || !IsSpace(a[|a| - 1]) || !IsSpace(b[0])
    ensures Collapse(a + b) == Collapse(a) + Collapse(b)
  {
    if a == [] {
      assert a + b == b;
    } else {
      var ab := a + b;
      assert ab[0] == a[0] && ab[1..] == a[1..] + b;
      if |a| > 1 {
        assert ab[1] == a[1];
        CollapseAppend(a[1..], b);
        if !(IsSpace(a[0]) && IsSpace(a[1])) {
          calc {
            Collapse(ab);
            [Squash(a[0])] + Collapse(a[1..] + b);
            [Squash(a[0])] + (Collapse(a[1..]) + Collapse(b));
            ([Squash(a[0])] + Collapse(a[1..])) + Collapse(b);
            Collapse(a) + Collapse(b);
          }
        } else {
          assert Collapse(ab) == Collapse(a[1..] + b);
          assert Collapse(a) == Collapse(a[1..]);
        }
      } else {
        assert ab[1..] == b && a[1..] == [];
        assert Collapse(a) == [Squash(a[0])];
        if b != [] {
          assert ab[1] == b[0] && a[|a| - 1] == a[0];
          assert !(IsSpace(ab[0]) && IsSpace(ab[1]));
        }
        assert Collapse(ab) == [Squash(a[0])] + Collapse(b);
      }
    }
  }

  /** A non-empty run made only of whitespace collapses to one space. */
  lemma {:induction false} CollapseRun(s: string)
    requires s != [] && forall c :: c in s ==> IsSpace(c)
    ensures Collapse(s) == " "
  {
    assert s[0] in s;
    if |s| > 1 {
      assert s[1] in s;
      assert forall c :: c in s[1..] ==> c in s;
      CollapseRun(s[1..]);
    }
  }

  /** `clean_text` can be applied piecewise at any cut next to a word character. */
  lemma CleanTextAppend(a: string, b: string)
    requires a == [] || b == [] || IsWordChar(a[|a| - 1]) || IsWordChar(b[0])
    ensures CleanText(a + b) == CleanText(a) + CleanText(b)
  {
    LowerAppend(a, b);
    BlankAppend(Lower(a), Lower(b));
    CollapseAppend(Blank(Lower(a)), Blank(Lower(b)));
  }

  /** A stretch of word characters comes out lower-cased and otherwise unchanged. */
  lemma CleanTextWord(w: string)
    requires forall c :: c in w ==> IsWordChar(c)
    ensures CleanText(w) == Lower(w)
  {
    var l := Lower(w);
    assert Blank(l) == l by {
      forall i | 0 <= i < |l| ensures Blank(l)[i] == l[i] {
        assert w[i] in w;
      }
    }
    assert IsClean(l) by {
      forall c | c in l ensures IsCleanChar(c) {
        var i :| 0 <= i < |l| && l[i] == c;
        assert w[i] in w;
      }
    }
    CollapseClean(l);
  }

  /** A non-empty stretch of non-word characters comes out as exactly one space. */
  lemma CleanTextSeparator(p: string)
    requires p != [] && forall c :: c in p ==> !IsWordChar(c)
    ensures CleanText(p) == " "
  {
    var b := Blank(Lower(p));
    forall c | c in b ensures IsSpace(c) {
      var i :| 0 <= i < |b| && b[i] == c;
      assert p[i] in p;
    }
    CollapseRun(b);
  }

  /** The first half of `CleanTextExample`. */
  lemma ExampleHead(w1: string, p1: string, w2: string)
    requires w1 == "C" && p1 == "++  & " && w2 == "Java"
    ensures CleanText(w1 + p1 + w2) == "c java"
  {
    CleanTextWord(w1);
    CleanTextSeparator(p1);
    CleanTextWord(w2);
    CleanTextAppend(w1 + p1, w2);
    CleanTextAppend(w1, p1);
    assert Lower(w1) == "c" && Lower(w2) == "java";
  }

  /** The second half of `CleanTextExample`. */
  lemma ExampleTail(p2: string, w3: string, p3: string)
    requires p2 == "-" && w3 == "Script" && p3 == "!"
    ensures CleanText(p2 + w3 + p3) == " script "
  {
    CleanTextSeparator(p2);
    CleanTextWord(w3);
    CleanTextSeparator(p3);
    CleanTextAppend(p2 + w3, p3);
    CleanTextAppend(p2, w3);
    assert Lower(w3) == "script";
  }

  /** `CleanTextExample` over the input's alternating word and non-word
      stretches. */
  lemma CleanTextExamplePieces(w1: string, p1: string, w2: string, p2: string, w3: string, p3: string)
    requires w1 == "C" && p1 == "++  & " && w2 == "Java" && p2 == "-" && w3 == "Script" && p3 == "!"
    ensures CleanText(w1 + p1 + w2 + p2 + w3 + p3) == "c java script "
  {
    ExampleHead(w1, p1, w2);
    ExampleTail(p2, w3, p3);
    assert w1 + p1 + w2 + p2 + w3 + p3 == (w1 + p1 + w2) + (p2 + w3 + p3);
    CleanTextAppend(w1 + p1 + w2, p2 + w3 + p3);
  }

  /** Punctuation becomes spaces, runs are collapsed, letters are lower-cased,
      and the trailing space stays. */
  lemma CleanTextExample()
    ensures CleanText("C++  & Java-Script!") == "c java script "
  {
    assert "C++  & Java-Script!" == "C" + "++  & " + "Java" + "-" + "Script" + "!";
    CleanTextExamplePieces("C", "++  & ", "Java", "-", "Script", "!");
  }
}
