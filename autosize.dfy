/**
 * The auto-size rule of an updatable field (updatable_field.prototype.update_size):
 * a textarea is sized from its trimmed lines, a text input from its length, and
 * any other element keeps its box. Text is a sequence of characters (Unicode scalar values).
 */
module AutoSize {

  /** The element kinds the rule tells apart: a textarea, an input of type text, anything else. */
  datatype ElementKind = Textarea | TextInput | Other

  /** An element's box in pixels. */
  datatype Box = Box(width: int, height: int)

  /** Pixels per character of width. */
  const CharWidth: int := 8
  /** Pixels per line of height. */
  const LineHeight: int := 17
  /** The separator the textarea text is split on. */
  const Newline: char := '\n'

  /** The characters String.prototype.trim removes: ECMAScript WhiteSpace and LineTerminator. */
  predicate IsWhiteSpace(c: char)
  {
    || c == ' ' || c == '\t' || c == '\n' || c == '\r' || c == '\U{000B}' || c == '\U{000C}'
    || c == '\U{00A0}' || c == '\U{1680}' || ('\U{2000}' <= c <= '\U{200A}')
    || c == '\U{2028}' || c == '\U{2029}' || c == '\U{202F}' || c == '\U{205F}'
    || c == '\U{3000}' || c == '\U{FEFF}'
  }

  /** `s` without its leading white space (see TrimStartSpec). */
  function TrimStart(s: string): (r: string)
    ensures |r| <= |s|
    ensures r != [] ==> !IsWhiteSpace(r[0])
  {
    if s != [] && IsWhiteSpace(s[0]) then TrimStart(s[1..]) else s
  }

  /** `s` without its trailing white space (see TrimEndSpec). */
  function TrimEnd(s: string): (r: string)
    ensures |r| <= |s|
    ensures r != [] ==> !IsWhiteSpace(r[|r| - 1])
  {
    if s != [] && IsWhiteSpace(s[|s| - 1]) then TrimEnd(s[..|s| - 1]) else s
  }

  /** String.prototype.trim: `s` less its leading and its trailing white space (see TrimSlice). */
  function Trim(s: string): (r: string)
    ensures |r| <= |s|
  {
    TrimEnd(TrimStart(s))
  }

  /** TrimStart keeps the longest suffix that does not start with white space; all it removes is white space. */
  lemma {:induction false} TrimStartSpec(s: string)
    ensures var r := TrimStart(s);
            && |r| <= |s| && r == s[|s| - |r|..]
            && (forall k :: 0 <= k < |s| - |r| ==> IsWhiteSpace(s[k]))
            && (r != [] ==> !IsWhiteSpace(r[0]))
  {
    if s != [] && IsWhiteSpace(s[0]) {
      TrimStartSpec(s[1..]);
      var r := TrimStart(s);
      assert r == TrimStart(s[1..]);
      assert s[1..][|s| - 1 - |r|..] == s[|s| - |r|..];
      forall k | 0 < k < |s| - |r| ensures IsWhiteSpace(s[k]) {
        assert s[k] == s[1..][k - 1];
      }
    }
  }

  /** TrimEnd keeps the longest prefix that does not end with white space; all it removes is white space. */
  lemma {:induction false} TrimEndSpec(s: string)
    ensures var r := TrimEnd(s);
            && |r| <= |s| && r == s[..|r|]
            && (forall k :: |r| <= k < |s| ==> IsWhiteSpace(s[k]))
            && (r != [] ==> !IsWhiteSpace(r[|r| - 1]))
  {
    if s != [] && IsWhiteSpace(s[|s| - 1]) {
      var t := s[..|s| - 1];
      TrimEndSpec(t);
      var r := TrimEnd(s);
      assert r == TrimEnd(t);
      assert t[..|r|] == s[..|r|];
      forall k | |r| <= k < |s| - 1 ensures IsWhiteSpace(s[k]) {
        assert s[k] == t[k];
      }
    }
  }

  /**
   * The trim of `s` is a slice of it, everything of `s` outside that slice is white space,
   * and the slice neither starts nor ends with white space.
   */
  lemma TrimSlice(s: string)
    ensures exists i :: TrimmedAt(s, i, Trim(s))
    ensures var r := Trim(s); r != [] ==> !IsWhiteSpace(r[0]) && !IsWhiteSpace(r[|r| - 1])
  {
    var t := TrimStart(s);
    var r := TrimEnd(t);
    assert r == Trim(s);
    assert TrimmedAt(s, |s| - |t|, r) by {
      TrimStartSpec(s);
      TrimEndSpec(t);
      SliceOfSuffix(s, t, r);
    }
    assert r != [] ==> r[0] == t[0] by {
      TrimEndSpec(t);
    }
  }

  /** A prefix `r` of a suffix `t` of `s` sits in `s` at `|s| - |t|`, and what lies outside it in `s` is white space. */
  lemma SliceOfSuffix(s: string, t: string, r: string)
    requires |t| <= |s| && t == s[|s| - |t|..]
    requires |r| <= |t| && r == t[..|r|]
    requires forall k :: 0 <= k < |s| - |t| ==> IsWhiteSpace(s[k])
    requires forall k :: |r| <= k < |t| ==> IsWhiteSpace(t[k])
    ensures TrimmedAt(s, |s| - |t|, r)
  {
    var i := |s| - |t|;
    assert r == s[i..i + |r|];
    forall k | i + |r| <= k < |s| ensures IsWhiteSpace(s[k]) {
      assert s[k] == t[k - i];
    }
  }

  /** `r` is the slice of `s` at `i` and everything of `s` outside it is white space. */
  ghost predicate TrimmedAt(s: string, i: int, r: string)
  {
    && 0 <= i <= |s| - |r| && r == s[i..i + |r|]
    && (forall k :: 0 <= k < i ==> IsWhiteSpace(s[k]))
    && (forall k :: i + |r| <= k < |s| ==> IsWhiteSpace(s[k]))
  }

  /** JavaScript's `s.split('\n')`: the pieces of `s` between its newlines, in order. */
  function Split(s: string): (lines: seq<string>)
    ensures |lines| >= 1
    ensures forall i :: 0 <= i < |lines| ==> Newline !in lines[i]
  {
    if s == [] then [[]]
    else
      var rest := Split(s[1..]);
      if s[0] == Newline then [[]] + rest
      else
        assert forall i :: 1 <= i < |rest| ==> Newline !in rest[i];
        [[s[0]] + rest[0]] + rest[1..]
  }

  /** `lines` joined with newlines between them: the inverse of Split. */
  function Join(lines: seq<string>): (text: string)
  {
    if lines == [] then []
    else if |lines| == 1 then lines[0]
    else lines[0] + [Newline] + Join(lines[1..])
  }

  /** The largest of a non-empty list of numbers, as Math.max.apply returns it. */
  function MaxOf(xs: seq<int>): (m: int)
    requires xs != []
    ensures exists i :: 0 <= i < |xs| && m == xs[i]
    ensures forall i :: 0 <= i < |xs| ==> xs[i] <= m
  {
    if |xs| == 1 then xs[0]
    else
      var t := MaxOf(xs[1..]);
      assert forall i :: 1 <= i < |xs| ==> xs[i] == xs[1..][i - 1];
      assert exists i :: 1 <= i < |xs| && t == xs[i] by {
        var j :| 0 <= j < |xs| - 1 && t == xs[1..][j];
        assert t == xs[j + 1];
      }
      if xs[0] >= t then xs[0] else t
  }

  /** The trimmed length of each line. */
  function TrimmedLengths(lines: seq<string>): (lengths: seq<int>)
    ensures |lengths| == |lines|
    ensures forall i :: 0 <= i < |lines| ==> 0 <= lengths[i] <= |lines[i]|
  {
    seq(|lines|, i requires 0 <= i < |lines| => |Trim(lines[i])|)
  }

  /** The box update_size gives an element of kind `kind` showing `text`, whose box was `box`. */
  function Resize(kind: ElementKind, text: string, box: Box): (r: Box)
    ensures kind == Textarea ==> r.width >= 0 && r.height >= LineHeight
    ensures kind == TextInput ==> r.width >= 0 && r.height == box.height
    ensures kind == Other ==> r == box
  {
    match kind
    case Textarea =>
      var lines := Split(text);
      Box(CharWidth * MaxOf(TrimmedLengths(lines)), LineHeight * |lines|)
    case TextInput => Box(CharWidth * |text|, box.height)
    case Other => box
  }

  // ---------------------------------------------------------------------------
  // Properties of splitting and joining

  /** Splitting `text` on newlines and joining the pieces gives `text` back. */
  lemma {:induction false} JoinSplit(text: string)
    ensures Join(Split(text)) == text
  {
    if text != [] {
      var rest := Split(text[1..]);
      JoinSplit(text[1..]);
      if text[0] == Newline {
        assert Split(text) == [[]] + rest;
        assert ([[]] + rest)[1..] == rest;
      } else {
        var lines := Split(text);
        assert lines == [[text[0]] + rest[0]] + rest[1..];
        if |rest| == 1 {
          assert Join(lines) == [text[0]] + rest[0];
        } else {
          assert lines[1..] == rest[1..];
          assert Join(rest) == rest[0] + [Newline] + Join(rest[1..]);
          assert Join(lines) == [text[0]] + rest[0] + [Newline] + Join(rest[1..]);
        }
      }
    }
  }

  /** Splitting yields one more line than the text has newlines. */
  lemma {:induction false} SplitCount(text: string)
    ensures |Split(text)| == multiset(text)[Newline] + 1
  {
    if text != [] {
      SplitCount(text[1..]);
      assert text == [text[0]] + text[1..];
      assert multiset(text) == multiset{text[0]} + multiset(text[1..]);
    }
  }

  /** Splitting `a + t`, where `a` holds no newline, glues `a` onto the first piece of `t`. */
  lemma {:induction false} SplitPrefix(a: string, t: string)
    requires Newline !in a
    ensures Split(a + t) == [a + Split(t)[0]] + Split(t)[1..]
  {
    if a != [] {
      SplitPrefix(a[1..], t);
      assert (a + t)[1..] == a[1..] + t;
      assert a[0] != Newline;
      assert [a[0]] + (a[1..] + Split(t)[0]) == a + Split(t)[0];
    } else {
      var lines := Split(t);
      assert a + t == t && a + lines[0] == lines[0];
      assert [lines[0]] + lines[1..] == lines;
    }
  }

  /** Joining newline-free lines and splitting the result gives the lines back. */
  lemma {:induction false} SplitJoin(lines: seq<string>)
    requires lines != []
    requires forall i :: 0 <= i < |lines| ==> Newline !in lines[i]
    ensures Split(Join(lines)) == lines
  {
    if |lines| == 1 {
      SplitPrefix(lines[0], []);
      assert lines[0] + [] == lines[0];
    } else {
      var t := Join(lines[1..]);
      SplitJoin(lines[1..]);
      SplitPrefix(lines[0], [Newline] + t);
      assert lines[0] + [Newline] + t == lines[0] + ([Newline] + t);
      assert ([Newline] + t)[1..] == t;
      assert Split([Newline] + t) == [[]] + Split(t);
      assert lines[0] + [] == lines[0];
    }
  }

  // ---------------------------------------------------------------------------
  // Properties of the size rule

  /**
   * A textarea is 17 pixels high per line (one more line than it has newlines, so never
   * lower than one line) and 8 pixels wide per character of its longest trimmed line.
   */
  lemma TextareaSize(text: string, box: Box)
    ensures var r := Resize(Textarea, text, box);
            && r.height == LineHeight * (multiset(text)[Newline] + 1)
            && r.height >= LineHeight
            && (exists i :: 0 <= i < |Split(text)| && r.width == CharWidth * |Trim(Split(text)[i])|)
            && (forall i :: 0 <= i < |Split(text)| ==> CharWidth * |Trim(Split(text)[i])| <= r.width)
  {
    var lines := Split(text);
    SplitCount(text);
    LongestLine(lines);
  }

  /** The longest trimmed length is the trimmed length of some line and at least that of every line. */
  lemma LongestLine(lines: seq<string>)
    requires lines != []
    ensures exists i :: 0 <= i < |lines| && MaxOf(TrimmedLengths(lines)) == |Trim(lines[i])|
    ensures forall i :: 0 <= i < |lines| ==> |Trim(lines[i])| <= MaxOf(TrimmedLengths(lines))
  {
    var xs := TrimmedLengths(lines);
    var m := MaxOf(xs);
    var i :| 0 <= i < |xs| && m == xs[i];
    assert m == |Trim(lines[i])|;
    forall j | 0 <= j < |lines| ensures |Trim(lines[j])| <= m {
      assert xs[j] <= m;
    }
  }

  /** Every character of `s` is white space. */
  ghost predicate Blank(s: string)
  {
    forall k :: 0 <= k < |s| ==> IsWhiteSpace(s[k])
  }

  /** A textarea is zero pixels wide exactly when its whole text is white space. */
  lemma TextareaWidthZero(text: string, box: Box)
    ensures Resize(Textarea, text, box).width == 0 <==> Blank(text)
  {
    var m := MaxOf(TrimmedLengths(Split(text)));
    assert Resize(Textarea, text, box).width == CharWidth * m;
    assert m == 0 <==> Blank(text) by {
      LongestLineZero(Split(text));
      BlankLines(text);
    }
  }

  /** Every line is white space. */
  ghost predicate AllBlank(lines: seq<string>)
  {
    forall i :: 0 <= i < |lines| ==> Blank(lines[i])
  }

  /** The longest trimmed line has length 0 exactly when every line is white space. */
  lemma LongestLineZero(lines: seq<string>)
    requires lines != []
    ensures MaxOf(TrimmedLengths(lines)) == 0 <==> AllBlank(lines)
  {
    var xs := TrimmedLengths(lines);
    var m := MaxOf(xs);
    forall i | 0 <= i < |lines| ensures xs[i] == 0 <==> Blank(lines[i]) {
      TrimEmpty(lines[i]);
    }
    var w :| 0 <= w < |xs| && m == xs[w];
    if m == 0 {
      forall i | 0 <= i < |lines| ensures Blank(lines[i]) {
        assert 0 <= xs[i] <= m;
      }
    } else {
      assert !Blank(lines[w]);
    }
  }

  /** A text is white space exactly when every line of it is. */
  lemma BlankLines(text: string)
    ensures Blank(text) <==> AllBlank(Split(text))
  {
    var lines := Split(text);
    JoinSplit(text);
    if AllBlank(lines) {
      JoinWhiteSpace(lines);
    } else {
      var i :| 0 <= i < |lines| && !Blank(lines[i]);
      var k :| 0 <= k < |lines[i]| && !IsWhiteSpace(lines[i][k]);
      var p := JoinPosition(lines, i, k);
    }
  }

  /** A line trims to nothing exactly when all of it is white space. */
  lemma TrimEmpty(s: string)
    ensures Trim(s) == [] <==> Blank(s)
  {
    TrimSlice(s);
    var i :| TrimmedAt(s, i, Trim(s));
    if Trim(s) != [] {
      assert s[i] == Trim(s)[0];
    } else {
      forall k | 0 <= k < |s| ensures IsWhiteSpace(s[k]) {
        assert k < i || i <= k;
      }
    }
  }

  /** Joining lines that are all white space gives white space (the newline is white space too). */
  lemma {:induction false} JoinWhiteSpace(lines: seq<string>)
    requires AllBlank(lines)
    ensures Blank(Join(lines))
  {
    if |lines| == 1 {
      assert Blank(lines[0]);
    } else if |lines| > 1 {
      assert AllBlank(lines[1..]) by {
        forall i | 0 <= i < |lines| - 1 ensures Blank(lines[1..][i]) {
          assert lines[1..][i] == lines[i + 1];
        }
      }
      JoinWhiteSpace(lines[1..]);
      var j := Join(lines[1..]);
      assert Blank(lines[0]) && Blank(j);
      forall k | 0 <= k < |Join(lines)| ensures IsWhiteSpace(Join(lines)[k]) {
        if k < |lines[0]| {
          assert Join(lines)[k] == lines[0][k];
        } else if k > |lines[0]| {
          assert Join(lines)[k] == j[k - |lines[0]| - 1];
        }
      }
    }
  }

  /** Character `k` of line `i` stands at some position `p` of the joined text. */
  lemma {:induction false} JoinPosition(lines: seq<string>, i: nat, k: nat) returns (p: nat)
    requires i < |lines| && k < |lines[i]|
    ensures p < |Join(lines)| && Join(lines)[p] == lines[i][k]
  {
    if i == 0 {
      p := k;
      if |lines| > 1 {
        assert Join(lines) == lines[0] + ([Newline] + Join(lines[1..]));
      }
    } else {
      var q := JoinPosition(lines[1..], i - 1, k);
      p := |lines[0]| + 1 + q;
      assert Join(lines) == lines[0] + [Newline] + Join(lines[1..]);
    }
  }

  /** A text input is 8 pixels wide per character and keeps its height. */
  lemma TextInputSize(text: string, box: Box)
    ensures Resize(TextInput, text, box) == Box(CharWidth * |text|, box.height)
  {
  }

  /** A text input showing "abcde" is 40 pixels wide. */
  lemma FiveCharacterInput(box: Box)
    ensures Resize(TextInput, "abcde", box).width == 40
  {
  }

  /** An empty textarea is one empty line: 0 pixels wide and 17 high. */
  lemma EmptyTextarea(box: Box)
    ensures Resize(Textarea, "", box) == Box(0, 17)
  {
    assert Split("") == [""];
    assert Trim("") == "";
    assert TrimmedLengths([""]) == [0];
  }

  /** A line that neither starts nor ends with white space is its own trim. */
  lemma TrimKeeps(s: string)
    requires s != [] ==> !IsWhiteSpace(s[0]) && !IsWhiteSpace(s[|s| - 1])
    ensures Trim(s) == s
  {
  }

  /** "ab\ncde" splits into "ab" and "cde". */
  lemma SplitTwoLines()
    ensures Split("ab\ncde") == ["ab", "cde"]
  {
    var lines := ["ab", "cde"];
    assert Join(lines) == "ab\ncde" by {
      assert lines[1..] == ["cde"];
    }
    SplitJoin(lines);
  }

  /** A textarea showing "ab\ncde" has two lines, the longer of three characters: 24 by 34 pixels. */
  lemma TwoLineTextarea(text: string, box: Box)
    requires text == "ab\ncde"
    ensures Resize(Textarea, text, box) == Box(24, 34)
  {
    var lines := ["ab", "cde"];
    assert Split(text) == lines by {
      SplitTwoLines();
    }
    TrimKeeps(lines[0]);
    TrimKeeps(lines[1]);
    TwoLengths(lines, 2, 3);
    TextareaOfLines(text, lines, box);
  }

  /** The longest trimmed line of a two-line text, from the trimmed length of each line. */
  lemma TwoLengths(lines: seq<string>, a: nat, b: nat)
    requires |lines| == 2 && |Trim(lines[0])| == a && |Trim(lines[1])| == b
    ensures MaxOf(TrimmedLengths(lines)) == if a >= b then a else b
  {
    var xs := TrimmedLengths(lines);
    assert xs[0] == a && xs[1] == b;
    assert xs[1..] == [b];
  }

  /** The textarea rule applied to a text whose lines are already known. */
  lemma TextareaOfLines(text: string, lines: seq<string>, box: Box)
    requires Split(text) == lines
    ensures Resize(Textarea, text, box) == Box(CharWidth * MaxOf(TrimmedLengths(lines)), LineHeight * |lines|)
  {
  }
}
