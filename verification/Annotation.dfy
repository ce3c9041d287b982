/**
  GitHub annotation lines (cmd/commentlint/github.go escapeData, escapeProperty, annotationLine),
  with a reader that takes every printed line apart again.
*/
module Annotation {
  import opened Decimal
  import opened Text
  import opened Wrappers

  // ---------------------------------------------------------------- escaping

  /** The first replacer: percent signs and line ends. */
  function DataEscape(c: char): string {
    if c == '%' then "%25" else if c == '\r' then "%0D" else if c == '\n' then "%0A" else [c]
  }

  /** The second replacer, run over the first one's output: the property separators. */
  function SeparatorEscape(c: char): string {
    if c == ':' then "%3A" else if c == ',' then "%2C" else [c]
  }

  /** A replacer whose old strings are single characters. */
  function Replace(escape: char -> string, s: string): string {
    if s == [] then "" else Replace(escape, s[..|s| - 1]) + escape(s[|s| - 1])
  }

  function EscapeData(value: string): string {
    Replace(DataEscape, value)
  }

  function EscapeProperty(value: string): string {
    Replace(SeparatorEscape, EscapeData(value))
  }

  /** Both replacers on one character. */
  function PropertyEscape(c: char): string {
    if c == ':' || c == ',' then SeparatorEscape(c) else DataEscape(c)
  }

  // ---------------------------------------------------------------- reading back

  function Unescaped(a: char, b: char): char {
    if a == '2' && b == '5' then '%'
    else if a == '0' && b == 'D' then '\r'
    else if a == '0' && b == 'A' then '\n'
    else if a == '3' && b == 'A' then ':'
    else ','
  }

  /** Every '%' begins an escape of two characters. */
  function Unescape(s: string): string
    decreases |s|
  {
    if s == [] then ""
    else if s[0] == '%' && |s| >= 3 then [Unescaped(s[1], s[2])] + Unescape(s[3..])
    else [s[0]] + Unescape(s[1..])
  }

  lemma {:induction false} ReplaceConcat(escape: char -> string, a: string, b: string)
    ensures Replace(escape, a + b) == Replace(escape, a) + Replace(escape, b)
    decreases |b|
  {
    if b == [] {
      assert a + b == a;
    } else {
      var whole, prev, last := a + b, b[..|b| - 1], b[|b| - 1];
      ReplaceConcat(escape, a, prev);
      assert whole[..|whole| - 1] == a + prev && whole[|whole| - 1] == last;
      assert Replace(escape, whole) == Replace(escape, a + prev) + escape(last);
    }
  }

  lemma ReplaceOne(escape: char -> string, c: char)
    ensures Replace(escape, [c]) == escape(c)
  {
    assert [c][..0] == [];
  }

  lemma ReplaceFront(escape: char -> string, s: string)
    requires s != []
    ensures Replace(escape, s) == escape(s[0]) + Replace(escape, s[1..])
  {
    assert s == [s[0]] + s[1..];
    ReplaceConcat(escape, [s[0]], s[1..]);
    ReplaceOne(escape, s[0]);
  }

  lemma ReplaceThree(escape: char -> string, x: char, y: char, z: char)
    ensures Replace(escape, [x, y, z]) == escape(x) + escape(y) + escape(z)
  {
    assert [x, y, z] == [x] + [y] + [z];
    ReplaceConcat(escape, [x] + [y], [z]);
    ReplaceConcat(escape, [x], [y]);
    ReplaceOne(escape, x);
    ReplaceOne(escape, y);
    ReplaceOne(escape, z);
  }

  /** The separator replacer leaves what the data replacer put in alone. */
  lemma SeparatorAfterData(c: char)
    ensures Replace(SeparatorEscape, DataEscape(c)) == PropertyEscape(c)
  {
    ReplaceOne(SeparatorEscape, c);
    ReplaceThree(SeparatorEscape, '%', '2', '5');
    ReplaceThree(SeparatorEscape, '%', '0', 'D');
    ReplaceThree(SeparatorEscape, '%', '0', 'A');
  }

  /** So escaping a property is one pass over its characters. */
  lemma {:induction false} PropertyIsOnePass(value: string)
    ensures EscapeProperty(value) == Replace(PropertyEscape, value)
  {
    if value != [] {
      var n := |value| - 1;
      PropertyIsOnePass(value[..n]);
      ReplaceConcat(SeparatorEscape, EscapeData(value[..n]), DataEscape(value[n]));
      SeparatorAfterData(value[n]);
    }
  }

  lemma UnescapeOne(e: string, c: char, rest: string)
    requires e == DataEscape(c) || e == PropertyEscape(c)
    ensures Unescape(e + rest) == [c] + Unescape(rest)
  {
    var s := e + rest;
    if |e| == 3 {
      assert s[0] == e[0] && s[1] == e[1] && s[2] == e[2];
      assert s[3..] == rest;
    } else {
      assert e == [c];
      assert s[1..] == rest;
    }
  }

  /** Unescaping undoes the data escape and the property escape of any text. */
  lemma {:induction false} UnescapeUndoes(value: string)
    ensures Unescape(EscapeData(value)) == value
    ensures Unescape(EscapeProperty(value)) == value
  {
    PropertyIsOnePass(value);
    if value != [] {
      var rest := value[1..];
      UnescapeUndoes(rest);
      PropertyIsOnePass(rest);
      ReplaceFront(DataEscape, value);
      ReplaceFront(PropertyEscape, value);
      UnescapeOne(DataEscape(value[0]), value[0], EscapeData(rest));
      UnescapeOne(PropertyEscape(value[0]), value[0], EscapeProperty(rest));
      assert value == [value[0]] + rest;
    }
  }

  lemma {:induction false} ReplaceAvoids(escape: char -> string, s: string, c: char)
    requires forall x :: c !in escape(x)
    ensures c !in Replace(escape, s)
  {
    if s != [] {
      ReplaceAvoids(escape, s[..|s| - 1], c);
      assert c !in escape(s[|s| - 1]);
    }
  }

  /** Escaped text never ends the line, and an escaped property never ends its property. */
  lemma EscapedIsPlain(value: string)
    ensures '\r' !in EscapeData(value) && '\n' !in EscapeData(value)
    ensures '\r' !in EscapeProperty(value) && '\n' !in EscapeProperty(value)
    ensures ':' !in EscapeProperty(value) && ',' !in EscapeProperty(value)
  {
    PropertyIsOnePass(value);
    ReplaceAvoids(DataEscape, value, '\r');
    ReplaceAvoids(DataEscape, value, '\n');
    ReplaceAvoids(PropertyEscape, value, '\r');
    ReplaceAvoids(PropertyEscape, value, '\n');
    ReplaceAvoids(PropertyEscape, value, ':');
    ReplaceAvoids(PropertyEscape, value, ',');
  }

  // ---------------------------------------------------------------- annotation lines

  datatype Violation = Violation(path: string, line: nat, rule: string, class_: string)

  const MESSAGE_TAIL := " block; CLAUDE.md keeps a comment only on an unrecoverable external cause"

  function TitleOf(v: Violation): string {
    "commentlint (" + v.rule + ")"
  }

  function MessageOf(v: Violation): string {
    v.class_ + MESSAGE_TAIL
  }

  function AnnotationLine(v: Violation): string {
    "::error file=" + (EscapeProperty(v.path) + [',']
    + ("line=" + (Dec(v.line) + [',']
    + ("title=" + (EscapeProperty(TitleOf(v)) + [':']
    + (":" + EscapeData(MessageOf(v))))))))
  }

  datatype Fields = Fields(path: string, line: nat, title: string, message: string)

  /** The text after a literal, if the text begins with it. */
  function After(literal: string, s: string): Option<string> {
    if literal <= s then Some(s[|literal|..]) else None
  }

  /** The text before the first `c`, and the text after it. */
  function Field(s: string, c: char): Option<(string, string)> {
    IndexOfIs(s, c);
    var i := IndexOf(s, c);
    if i.None? then None else Some((s[..i.value], s[i.value + 1..]))
  }

  function ReadMessage(s: string, path: string, line: string, title: string): Option<Fields> {
    match After(":", s)
    case None => None
    case Some(message) => Some(Fields(Unescape(path), Undec(line), Unescape(title), Unescape(message)))
  }

  function ReadTitle(s: string, path: string, line: string): Option<Fields> {
    match After("title=", s)
    case None => None
    case Some(rest) =>
      match Field(rest, ':')
      case None => None
      case Some(f) => ReadMessage(f.1, path, line, f.0)
  }

  function ReadLine(s: string, path: string): Option<Fields> {
    match After("line=", s)
    case None => None
    case Some(rest) =>
      match Field(rest, ',')
      case None => None
      case Some(f) => ReadTitle(f.1, path, f.0)
  }

  /** Takes an annotation line apart into its path, line, title and message. */
  function Read(s: string): Option<Fields> {
    match After("::error file=", s)
    case None => None
    case Some(rest) =>
      match Field(rest, ',')
      case None => None
      case Some(f) => ReadLine(f.1, f.0)
  }

  lemma AfterIs(literal: string, rest: string)
    ensures After(literal, literal + rest) == Some(rest)
  {
  }

  lemma FieldIs(text: string, c: char, rest: string)
    requires c !in text
    ensures Field(text + [c] + rest, c) == Some((text, rest))
  {
    IndexOfFirst(text, c, rest);
    assert (text + [c] + rest)[..|text|] == text;
  }

  lemma ReadTitleIs(title: string, message: string, path: string, line: string)
    requires ':' !in title
    ensures ReadTitle("title=" + (title + [':'] + (":" + message)), path, line)
            == Some(Fields(Unescape(path), Undec(line), Unescape(title), Unescape(message)))
  {
    AfterIs("title=", title + [':'] + (":" + message));
    FieldIs(title, ':', ":" + message);
    AfterIs(":", message);
  }

  lemma ReadLineIs(line: string, rest: string, path: string)
    requires ',' !in line
    ensures ReadLine("line=" + (line + [','] + rest), path) == ReadTitle(rest, path, line)
  {
    AfterIs("line=", line + [','] + rest);
    FieldIs(line, ',', rest);
  }

  lemma ReadIs(path: string, rest: string)
    requires ',' !in path
    ensures Read("::error file=" + (path + [','] + rest)) == ReadLine(rest, path)
  {
    AfterIs("::error file=", path + [','] + rest);
    FieldIs(path, ',', rest);
  }

  /** Every annotation line reads back as the path, line, title and message it was printed from. */
  lemma AnnotationReadsBack(v: Violation)
    ensures Read(AnnotationLine(v)) == Some(Fields(v.path, v.line, TitleOf(v), MessageOf(v)))
  {
    var path, title, message := EscapeProperty(v.path), EscapeProperty(TitleOf(v)), EscapeData(MessageOf(v));
    EscapedIsPlain(v.path);
    EscapedIsPlain(TitleOf(v));
    DecHasNoComma(v.line);
    var s3 := "title=" + (title + [':'] + (":" + message));
    ReadIs(path, "line=" + (Dec(v.line) + [','] + s3));
    ReadLineIs(Dec(v.line), s3, path);
    ReadTitleIs(title, message, path, Dec(v.line));
    UnescapeUndoes(v.path);
    UnescapeUndoes(TitleOf(v));
    UnescapeUndoes(MessageOf(v));
    UndecDec(v.line);
  }

  lemma DecHasNoComma(n: nat)
    ensures ',' !in Dec(n) && '\n' !in Dec(n) && '\r' !in Dec(n)
  {
    DecDigits(n);
  }

  lemma TailHasNoLineEnd()
    ensures '\n' !in "::error file=" && '\n' !in "line=" && '\n' !in "title="
    ensures '\r' !in "::error file=" && '\r' !in "line=" && '\r' !in "title="
  {
  }

  /** Every annotation is one line. */
  lemma AnnotationIsOneLine(v: Violation)
    ensures '\n' !in AnnotationLine(v) && '\r' !in AnnotationLine(v)
  {
    EscapedIsPlain(v.path);
    EscapedIsPlain(TitleOf(v));
    EscapedIsPlain(MessageOf(v));
    DecHasNoComma(v.line);
    TailHasNoLineEnd();
  }

  lemma SameTitle(v: Violation, w: Violation)
    requires TitleOf(v) == TitleOf(w)
    ensures v.rule == w.rule
  {
    assert |"commentlint ("| == 13;
    assert |TitleOf(v)| == |v.rule| + 14 && |TitleOf(w)| == |w.rule| + 14;
    assert v.rule == TitleOf(v)[13..|TitleOf(v)| - 1];
    assert w.rule == TitleOf(w)[13..|TitleOf(w)| - 1];
  }

  lemma SameMessage(v: Violation, w: Violation)
    requires MessageOf(v) == MessageOf(w)
    ensures v.class_ == w.class_
  {
    assert |MessageOf(v)| == |v.class_| + |MESSAGE_TAIL| && |MessageOf(w)| == |w.class_| + |MESSAGE_TAIL|;
    assert v.class_ == MessageOf(v)[..|MessageOf(v)| - |MESSAGE_TAIL|];
    assert w.class_ == MessageOf(w)[..|MessageOf(w)| - |MESSAGE_TAIL|];
  }

  lemma SameReading(v: Violation, w: Violation, line: string)
    requires line == AnnotationLine(v) && line == AnnotationLine(w)
    ensures v.path == w.path && v.line == w.line && TitleOf(v) == TitleOf(w) && MessageOf(v) == MessageOf(w)
  {
    AnnotationReadsBack(v);
    AnnotationReadsBack(w);
  }

  /** Two violations print the same line only when they are the same. */
  lemma AnnotationIsInjective(v: Violation, w: Violation)
    requires AnnotationLine(v) == AnnotationLine(w)
    ensures v == w
  {
    SameReading(v, w, AnnotationLine(v));
    SameTitle(v, w);
    SameMessage(v, w);
  }
}
