/**
 A reader of rendered lines, written from the line format and without the printer: names and tags up to the next
 delimiter not marked by a backslash, texts up to their closing quote, the other values by their last letter.
 */
module LineReader {
  import opened Common
  import opened Decimal
  import opened LineProtocol

  lemma {:induction false} ScanFits(e: string, special: char -> bool, prev: char)
    ensures Scan(e, special, prev) <= |e|
  {
    if e != [] { ScanFits(e[1..], special, e[0]); }
  }

  /** An escaped piece, and what follows it. */
  function ReadPiece(s: string, special: char -> bool): (r: (string, string))
    ensures |r.1| <= |s|
  {
    ScanFits(s, special, ' ');
    var n := Scan(s, special, ' ');
    (Unescape(s[..n], special), s[n..])
  }

  /** Past a character that has to be there. */
  function Skip(s: string, c: char): (r: string)
    ensures |r| <= |s|
  {
    if s != [] && s[0] == c then s[1..] else s
  }

  /** Tags, each after a comma, and what follows them. */
  function ReadTags(s: string): (r: (seq<(string, string)>, string))
    ensures |r.1| <= |s|
    decreases |s|
  {
    if s == [] || s[0] != ',' then ([], s)
    else
      var key := ReadPiece(s[1..], InTag);
      var value := ReadPiece(Skip(key.1, '='), InTag);
      var more := ReadTags(value.1);
      ([(key.0, value.0)] + more.0, more.1)
  }

  /** The length of a text up to its closing quote. */
  function TextEnd(s: string): (n: nat)
    ensures n <= |s|
  {
    if s == [] || s[0] == '"' then 0
    else if s[0] == '\\' && |s| > 1 then 2 + TextEnd(s[2..])
    else 1 + TextEnd(s[1..])
  }

  /** The length of a word up to the next comma or space. */
  function WordEnd(s: string): (n: nat)
    ensures n <= |s|
  {
    if s == [] || s[0] == ',' || s[0] == ' ' then 0 else 1 + WordEnd(s[1..])
  }

  /** A value that is not a text, by its last letter. */
  function ReadWord<F>(w: string, parse: string -> F): FieldValue<F> {
    var number := if w == [] then 0 else SignedValueOf(w[..|w| - 1]);
    if w == "true" then Boolean(true)
    else if w == "false" then Boolean(false)
    else if w != [] && w[|w| - 1] == 'i' then Integer(Clamp(number))
    else if w != [] && w[|w| - 1] == 'u' then UInteger(if number < 0 then 0 else number)
    else Float(parse(w))
  }

  function ReadValue<F>(s: string, parse: string -> F): (r: (FieldValue<F>, string))
    ensures |r.1| <= |s|
  {
    if s != [] && s[0] == '"' then
      var n := TextEnd(s[1..]);
      (Text(UnescapeText(s[1..][..n])), Skip(s[1..][n..], '"'))
    else
      var n := WordEnd(s);
      (ReadWord(s[..n], parse), s[n..])
  }

  /** Fields, the first right at the start and the others after commas, and what follows them. */
  function ReadFields<F>(s: string, parse: string -> F): (r: (seq<(string, FieldValue<F>)>, string))
    decreases |s|
  {
    var key := ReadPiece(s, InTag);
    var value := ReadValue(Skip(key.1, '='), parse);
    var field := (key.0, value.0);
    if value.1 == [] || value.1[0] != ',' then ([field], value.1)
    else
      var more := ReadFields(value.1[1..], parse);
      ([field] + more.0, more.1)
  }

  function ReadTime(s: string): Option<I64> {
    if s == [] then None else Some(Clamp(SignedValueOf(Skip(s, ' '))))
  }

  function ReadLine<F>(s: string, parse: string -> F): Line<F> {
    var name := ReadPiece(s, InIdentifier);
    var tags := ReadTags(name.1);
    var fields := ReadFields(Skip(tags.1, ' '), parse);
    Line(name.0, tags.0, fields.0, ReadTime(fields.1))
  }

  // ---- Reading what was printed ----

  lemma PieceReads(s: string, r: string, special: char -> bool)
    requires Markable(special) && Clean(s) && r != [] && special(r[0])
    ensures ReadPiece(Escape(s, special) + r, special) == (s, r)
  {
    var e := Escape(s, special);
    ScanFinds(s, r, special, ' ');
    UnescapeUndoes(s, special);
    assert (e + r)[..|e|] == e && (e + r)[|e|..] == r;
  }

  /** A key, its equals sign, and what follows. */
  lemma KeyReads(key: string, r: string)
    requires Clean(key)
    ensures var read := ReadPiece(Escape(key, InTag) + ("=" + r), InTag); read.0 == key && Skip(read.1, '=') == r
  {
    PieceReads(key, "=" + r, InTag);
    assert ("=" + r)[1..] == r;
  }

  lemma {:induction false} TagsRead(tags: seq<(string, string)>, r: string)
    requires forall k :: 0 <= k < |tags| ==> Clean(tags[k].0) && Clean(tags[k].1)
    requires r != [] && r[0] == ' '
    ensures ReadTags(TagsThen(tags, r)) == (tags, r)
  {
    hide Escape, Clean, ReadPiece, Skip;
    if tags != [] {
      var t, rest := tags[0], TagsThen(tags[1..], r);
      TagsStart(tags[1..], r);
      var value := Escape(t.1, InTag) + rest;
      var line := Escape(t.0, InTag) + ("=" + value);
      assert TagsThen(tags, r) == "," + line && ("," + line)[1..] == line;
      KeyReads(t.0, value);
      PieceReads(t.1, rest, InTag);
      TagsRead(tags[1..], r);
      assert tags == [t] + tags[1..];
    }
  }

  lemma {:induction false} TextEnds(s: string, r: string)
    ensures TextEnd(EscapeText(s) + ("\"" + r)) == |EscapeText(s)|
  {
    var e := EscapeText(s);
    if s == [] {
      assert e + ("\"" + r) == "\"" + r;
    } else {
      TextEnds(s[1..], r);
      var rest := EscapeText(s[1..]) + ("\"" + r);
      if s[0] == '\\' || s[0] == '"' {
        assert e + ("\"" + r) == ['\\', s[0]] + rest && (['\\', s[0]] + rest)[2..] == rest;
      } else {
        assert e + ("\"" + r) == [s[0]] + rest && ([s[0]] + rest)[1..] == rest;
      }
    }
  }

  lemma TextReads<F>(s: string, r: string, parse: string -> F)
    ensures ReadValue("\"" + EscapeText(s) + "\"" + r, parse) == (Text(s), r)
  {
    var e := EscapeText(s);
    var line := "\"" + e + "\"" + r;
    var body := e + ("\"" + r);
    TextEnds(s, r);
    UnescapeTextUndoes(s);
    hide EscapeText, UnescapeText, TextEnd;
    assert line[0] == '"' && line[1..] == body;
    assert body[..|e|] == e && body[|e|..] == "\"" + r && ("\"" + r)[1..] == r;
  }

  lemma {:induction false} WordEnds(w: string, r: string)
    requires ',' !in w && ' ' !in w && AtEnd(r)
    ensures WordEnd(w + r) == |w|
  {
    if w == [] {
      assert w + r == r;
    } else {
      assert (w + r)[1..] == w[1..] + r;
      WordEnds(w[1..], r);
    }
  }

  /** What is assumed of parsing floats: it undoes the rendering. */
  ghost predicate Parses<F(!new)>(render: F -> string, parse: string -> F) {
    forall f :: parse(render(f)) == f
  }

  lemma WordReads<F(!new)>(v: FieldValue<F>, render: F -> string, parse: string -> F)
    requires RendersFloats(render) && Parses(render, parse) && !v.Text?
    ensures ReadWord(ValueText(v, render), parse) == v
  {
    PlainValue(v, render);
    var w := ValueText(v, render);
    match v {
      case Float(f) =>
        assert w[|w| - 1] !in {'i', 'u', 'e'};
        assert "true"[3] == 'e' && "false"[4] == 'e';
      case Integer(i) =>
        assert w[..|w| - 1] == Signed(i);
        SignedDenotes(i);
        assert "true"[3] == 'e' && "false"[4] == 'e';
      case UInteger(u) =>
        assert w[..|w| - 1] == Digits(u) == Signed(u);
        SignedDenotes(u);
        assert "true"[3] == 'e' && "false"[4] == 'e';
      case Boolean(_) =>
    }
  }

  lemma ValueReads<F(!new)>(v: FieldValue<F>, r: string, render: F -> string, parse: string -> F)
    requires RendersFloats(render) && Parses(render, parse) && AtEnd(r)
    ensures ReadValue(ValueText(v, render) + r, parse) == (v, r)
  {
    if v.Text? {
      TextReads(v.s, r, parse);
    } else {
      var w := ValueText(v, render);
      PlainValue(v, render);
      WordReads(v, render, parse);
      hide ValueText, RendersFloats, Parses, ReadWord;
      WordEnds(w, r);
      assert (w + r)[0] == w[0] && (w + r)[..|w|] == w && (w + r)[|w|..] == r;
    }
  }

  /** The first field, and how reading goes on from what follows it. */
  lemma FieldReads<F(!new)>(f: (string, FieldValue<F>), rest: string, render: F -> string, parse: string -> F)
    requires RendersFloats(render) && Parses(render, parse) && Clean(f.0) && AtEnd(rest)
    ensures ReadFields(Escape(f.0, InTag) + ("=" + (ValueText(f.1, render) + rest)), parse)
         == if rest == [] || rest[0] != ',' then ([f], rest)
            else var more := ReadFields(rest[1..], parse); ([f] + more.0, more.1)
  {
    hide Escape, Clean, ReadPiece, ValueText, ReadValue, RendersFloats, Parses, Skip;
    KeyReads(f.0, ValueText(f.1, render) + rest);
    ValueReads(f.1, rest, render, parse);
  }

  lemma {:induction false} FieldsRead<F(!new)>(fields: seq<(string, FieldValue<F>)>, sep: char, t: Option<I64>,
        render: F -> string, parse: string -> F)
    requires RendersFloats(render) && Parses(render, parse) && fields != []
    requires forall k :: 0 <= k < |fields| ==> Clean(fields[k].0)
    ensures var line := FieldsThen(fields, sep, TimeText(t), render);
            line != [] && line[0] == sep && ReadFields(line[1..], parse) == (fields, TimeText(t))
  {
    var f, rest := fields[0], FieldsThen(fields[1..], ',', TimeText(t), render);
    var body := Escape(f.0, InTag) + ("=" + (ValueText(f.1, render) + rest));
    var all := FieldsThen(fields, sep, TimeText(t), render);
    FieldsStart(fields[1..], t, ',', render);
    FieldReads(f, rest, render, parse);
    assert all == [sep] + body && (fields[1..] == [] ==> rest == TimeText(t));
    hide *;
    assert all[0] == sep && all[1..] == body;
    assert fields == [f] + fields[1..];
    if fields[1..] == [] {
      assert fields == [f];
    } else {
      FieldsRead(fields[1..], ',', t, render, parse);
    }
  }

  lemma TimeReads(t: Option<I64>)
    ensures ReadTime(TimeText(t)) == t
  {
    if t.Some? {
      SignedDenotes(t.value);
      assert TimeText(t)[1..] == Signed(t.value);
    }
  }

  ghost predicate Readable<F>(l: Line<F>) {
    CleanLine(l) && l.fields != [] && forall k :: 0 <= k < |l.fields| ==> Clean(l.fields[k].0)
  }

  /** The printed line reads back as the line, whole: name, tags, fields with their values, and timestamp. */
  lemma ReadsBack<F(!new)>(l: Line<F>, render: F -> string, parse: string -> F)
    requires RendersFloats(render) && Parses(render, parse) && Readable(l)
    ensures ReadLine(Rendered(l, render), parse) == l
  {
    var fields := FieldsText(l, render);
    FieldsStart(l.fields, l.timestamp, ' ', render);
    TagsStart(l.tags, fields);
    hide Escape, Clean, ReadPiece, ReadTags, ReadFields, TimeText, RendersFloats, Parses, FieldsThen, TagsThen;
    PieceReads(l.measurement, TagsThen(l.tags, fields), InIdentifier);
    TagsRead(l.tags, fields);
    FieldsRead(l.fields, ' ', l.timestamp, render, parse);
    TimeReads(l.timestamp);
  }
}
