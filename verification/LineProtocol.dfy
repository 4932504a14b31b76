/** The line-protocol printer, and why what it prints can be read back in only one way. */
module LineProtocol {
  import opened Common
  import opened Decimal

  datatype FieldValue<F> =
    | Float(f: F)
    | Integer(i: I64)
    | UInteger(u: nat)
    | Text(s: string)
    | Boolean(b: bool)

  /** `tags` lists the tag map in its own order. */
  datatype Line<F> = Line(
    measurement: string,
    tags: seq<(string, string)>,
    fields: seq<(string, FieldValue<F>)>,
    timestamp: Option<I64>)

  predicate InIdentifier(c: char) { c == ',' || c == ' ' }

  predicate InTag(c: char) { c == ',' || c == '=' || c == ' ' }

  function EscapeChar(c: char, special: char -> bool): string {
    if special(c) then ['\\', c] else if c == '\n' then ['\\', 'n'] else [c]
  }

  function Escape(s: string, special: char -> bool): string {
    if s == [] then [] else EscapeChar(s[0], special) + Escape(s[1..], special)
  }

  function EscapeText(s: string): string {
    if s == [] then [] else (if s[0] == '\\' || s[0] == '"' then ['\\', s[0]] else [s[0]]) + EscapeText(s[1..])
  }

  function ValueText<F>(v: FieldValue<F>, render: F -> string): string {
    match v
    case Float(f) => render(f)
    case Integer(i) => Signed(i) + "i"
    case UInteger(u) => Digits(u) + "u"
    case Text(s) => "\"" + EscapeText(s) + "\""
    case Boolean(b) => if b then "true" else "false"
  }

  function TimeText(t: Option<I64>): string {
    match t case None => [] case Some(ts) => " " + Signed(ts)
  }

  /** The tags, then `rest`. */
  function TagsThen(tags: seq<(string, string)>, rest: string): string {
    if tags == [] then rest
    else "," + (Escape(tags[0].0, InTag) + ("=" + (Escape(tags[0].1, InTag) + TagsThen(tags[1..], rest))))
  }

  /** The fields, the first after `sep` and the others after commas, then `rest`. */
  function FieldsThen<F>(fields: seq<(string, FieldValue<F>)>, sep: char, rest: string, render: F -> string): string {
    if fields == [] then rest
    else [sep] + (Escape(fields[0].0, InTag)
         + ("=" + (ValueText(fields[0].1, render) + FieldsThen(fields[1..], ',', rest, render))))
  }

  function FieldsText<F>(l: Line<F>, render: F -> string): string {
    FieldsThen(l.fields, ' ', TimeText(l.timestamp), render)
  }

  function Rendered<F>(l: Line<F>, render: F -> string): string {
    Escape(l.measurement, InIdentifier) + TagsThen(l.tags, FieldsText(l, render))
  }

  // ---- The printer, pushing characters in loops ----

  lemma {:induction false} EscapeSnoc(s: string, c: char, special: char -> bool)
    ensures Escape(s + [c], special) == Escape(s, special) + EscapeChar(c, special)
  {
    if s == [] {
      assert [c][1..] == [];
    } else {
      assert (s + [c])[1..] == s[1..] + [c];
      EscapeSnoc(s[1..], c, special);
    }
  }

  lemma {:induction false} EscapeTextSnoc(s: string, c: char)
    ensures EscapeText(s + [c]) == EscapeText(s) + (if c == '\\' || c == '"' then ['\\', c] else [c])
  {
    if s == [] {
      assert [c][1..] == [];
    } else {
      assert (s + [c])[1..] == s[1..] + [c];
      EscapeTextSnoc(s[1..], c);
    }
  }

  method EscapeIdentifier(s: string) returns (out: string)
    ensures out == Escape(s, InIdentifier)
  {
    out := [];
    for k := 0 to |s|
      invariant out == Escape(s[..k], InIdentifier)
    {
      EscapeSnoc(s[..k], s[k], InIdentifier);
      assert s[..k + 1] == s[..k] + [s[k]];
      if s[k] == ',' || s[k] == ' ' {
        out := out + ['\\', s[k]];
      } else if s[k] == '\n' {
        out := out + ['\\', 'n'];
      } else {
        out := out + [s[k]];
      }
    }
    assert s[..|s|] == s;
  }

  /** Also used for tag values and field keys. */
  method EscapeTagKey(s: string) returns (out: string)
    ensures out == Escape(s, InTag)
  {
    out := [];
    for k := 0 to |s|
      invariant out == Escape(s[..k], InTag)
    {
      EscapeSnoc(s[..k], s[k], InTag);
      assert s[..k + 1] == s[..k] + [s[k]];
      if s[k] == ',' || s[k] == '=' || s[k] == ' ' {
        out := out + ['\\', s[k]];
      } else if s[k] == '\n' {
        out := out + ['\\', 'n'];
      } else {
        out := out + [s[k]];
      }
    }
    assert s[..|s|] == s;
  }

  method EscapeFieldString(s: string) returns (out: string)
    ensures out == EscapeText(s)
  {
    out := [];
    for k := 0 to |s|
      invariant out == EscapeText(s[..k])
    {
      EscapeTextSnoc(s[..k], s[k]);
      assert s[..k + 1] == s[..k] + [s[k]];
      if s[k] == '\\' || s[k] == '"' {
        out := out + ['\\', s[k]];
      } else {
        out := out + [s[k]];
      }
    }
    assert s[..|s|] == s;
  }

  method FormatField<F>(v: FieldValue<F>, render: F -> string) returns (out: string)
    ensures out == ValueText(v, render)
  {
    match v {
      case Float(f) => out := render(f);
      case Integer(i) => out := Signed(i) + "i";
      case UInteger(u) => out := Digits(u) + "u";
      case Text(s) =>
        var escaped := EscapeFieldString(s);
        out := "\"" + escaped + "\"";
      case Boolean(b) => out := if b then "true" else "false";
    }
  }

  lemma Append(a: string, b: string, c: string)
    ensures a + (b + c) == a + b + c
  {
  }

  lemma AppendPair(out: string, a: string, b: string, c: string, d: string, rest: string)
    ensures out + (a + (b + (c + (d + rest)))) == out + a + b + c + d + rest
  {
    Append(out, a, b + (c + (d + rest)));
    Append(out + a, b, c + (d + rest));
    Append(out + a + b, c, d + rest);
    Append(out + a + b + c, d, rest);
  }

  /** A line needs at least one field. */
  method Format<F>(l: Line<F>, render: F -> string) returns (r: Result<string, string>)
    ensures l.fields == [] ==> r == Err("LineProtocol: at least one field is required")
    ensures l.fields != [] ==> r == Ok(Rendered(l, render))
  {
    hide Escape, ValueText, Signed;
    if l.fields == [] { return Err("LineProtocol: at least one field is required"); }
    var out := EscapeIdentifier(l.measurement);
    ghost var goal := Rendered(l, render);
    ghost var fields := FieldsText(l, render);
    assert l.tags[0..] == l.tags;
    for k := 0 to |l.tags|
      invariant goal == out + TagsThen(l.tags[k..], fields)
    {
      var key := EscapeTagKey(l.tags[k].0);
      var value := EscapeTagKey(l.tags[k].1);
      assert l.tags[k..][1..] == l.tags[k + 1..];
      AppendPair(out, ",", key, "=", value, TagsThen(l.tags[k + 1..], fields));
      out := out + "," + key + "=" + value;
    }
    ghost var time := TimeText(l.timestamp);
    var first := true;
    assert l.fields[0..] == l.fields;
    for k := 0 to |l.fields|
      invariant first == (k == 0)
      invariant goal == out + FieldsThen(l.fields[k..], if first then ' ' else ',', time, render)
    {
      var sep := if first then ' ' else ',';
      var key := EscapeTagKey(l.fields[k].0);
      var value := FormatField(l.fields[k].1, render);
      assert l.fields[k..][1..] == l.fields[k + 1..];
      AppendPair(out, [sep], key, "=", value, FieldsThen(l.fields[k + 1..], ',', time, render));
      out := out + [sep] + key + "=" + value;
      first := false;
    }
    assert goal == out + time;
    if l.timestamp.Some? {
      Append(out, " ", Signed(l.timestamp.value));
      out := out + " " + Signed(l.timestamp.value);
    }
    assert out == goal;
    return Ok(out);
  }

  // ---- Undoing the escapes ----

  function Unescape(e: string, special: char -> bool): string {
    if e == [] then []
    else if e[0] == '\\' && |e| > 1 && special(e[1]) then [e[1]] + Unescape(e[2..], special)
    else [e[0]] + Unescape(e[1..], special)
  }

  /** A character set that escaping can mark: not the backslash, the newline or the letter a newline becomes. */
  ghost predicate Markable(special: char -> bool) {
    !special('\\') && !special('\n') && !special('n')
  }

  function Newlines(s: string): nat {
    if s == [] then 0 else (if s[0] == '\n' then 1 else 0) + Newlines(s[1..])
  }

  lemma {:induction false} NoNewlines(s: string)
    ensures Newlines(s) == 0 <==> '\n' !in s
  {
    if s != [] {
      NoNewlines(s[1..]);
      assert s == [s[0]] + s[1..];
    }
  }

  lemma EscapeStart(s: string, special: char -> bool)
    requires Markable(special)
    ensures Escape(s, special) != [] ==> !special(Escape(s, special)[0])
    ensures Escape(s, special) == [] <==> s == []
  {
  }

  lemma {:induction false} UnescapeLength(s: string, special: char -> bool)
    requires Markable(special)
    ensures |Unescape(Escape(s, special), special)| == |s| + Newlines(s)
    ensures Newlines(s) == 0 ==> Unescape(Escape(s, special), special) == s
  {
    if s != [] {
      UnescapeLength(s[1..], special);
      EscapeStart(s[1..], special);
      var e, rest := Escape(s, special), Escape(s[1..], special);
      if special(s[0]) {
        assert e[2..] == rest;
      } else if s[0] == '\n' {
        assert e[1..] == ['n'] + rest && e[1..][1..] == rest;
      } else {
        assert e[1..] == rest;
      }
    }
  }

  /** Unescaping undoes the identifier and tag escapes exactly on the strings without a newline. */
  lemma {:induction false} UnescapeUndoes(s: string, special: char -> bool)
    requires Markable(special)
    ensures Unescape(Escape(s, special), special) == s <==> '\n' !in s
  {
    UnescapeLength(s, special);
    NoNewlines(s);
  }

  function UnescapeText(e: string): string {
    if e == [] then []
    else if e[0] == '\\' && |e| > 1 then [e[1]] + UnescapeText(e[2..])
    else [e[0]] + UnescapeText(e[1..])
  }

  /** Unescaping undoes the text escape on every string. */
  lemma {:induction false} UnescapeTextUndoes(s: string)
    ensures UnescapeText(EscapeText(s)) == s
  {
    if s != [] {
      UnescapeTextUndoes(s[1..]);
      var e, rest := EscapeText(s), EscapeText(s[1..]);
      if s[0] == '\\' || s[0] == '"' {
        assert e == ['\\', s[0]] + rest && e[2..] == rest;
      } else {
        assert e == [s[0]] + rest && e[1..] == rest;
      }
      assert s == [s[0]] + s[1..];
    }
  }

  // ---- Where an escaped piece ends ----

  /** The first special character not right after a backslash, `prev` being the character before `e`. */
  function Scan(e: string, special: char -> bool, prev: char): nat {
    if e == [] || (special(e[0]) && prev != '\\') then 0 else 1 + Scan(e[1..], special, e[0])
  }

  predicate EndsInBackslash(s: string) {
    s != [] && s[|s| - 1] == '\\'
  }

  lemma ScanCons(c: char, more: string, special: char -> bool, prev: char)
    ensures Scan([c] + more, special, prev) == if special(c) && prev != '\\' then 0 else 1 + Scan(more, special, c)
  {
    assert ([c] + more)[1..] == more;
  }

  /** A piece followed by a delimiter is found whole exactly when it does not end in a backslash. */
  lemma {:induction false} ScanFinds(s: string, rest: string, special: char -> bool, prev: char)
    requires Markable(special) && rest != [] && special(rest[0])
    requires s == [] ==> prev != '\\'
    ensures Scan(Escape(s, special) + rest, special, prev) == |Escape(s, special)| <==> !EndsInBackslash(s)
    ensures Scan(Escape(s, special) + rest, special, prev) >= |Escape(s, special)|
  {
    var e := Escape(s, special);
    assert rest == [rest[0]] + rest[1..];
    if s == [] {
      assert e + rest == rest;
    } else {
      var first, tail := EscapeChar(s[0], special), Escape(s[1..], special);
      assert e == first + tail && (|s| == 1 ==> tail == []);
      assert |first| == 1 || (first == ['\\', first[1]] && first[1] != '\\');
      assert s[0] == '\\' ==> first == ['\\'];
      hide Escape, EscapeChar, Scan;
      var more, last := tail + rest, first[|first| - 1];
      Append(first, tail, rest);
      if |first| == 2 {
        Append(['\\'], [last], more);
        ScanCons('\\', [last] + more, special, prev);
        ScanCons(last, more, special, '\\');
      } else {
        ScanCons(last, more, special, prev);
      }
      if s == ['\\'] {
        assert more == rest;
        ScanCons(rest[0], rest[1..], special, '\\');
      } else {
        assert |s| > 1 ==> EndsInBackslash(s[1..]) == EndsInBackslash(s);
        ScanFinds(s[1..], rest, special, last);
      }
    }
  }

  ghost predicate Clean(s: string) {
    '\n' !in s && !EndsInBackslash(s)
  }

  /** Two clean pieces, each followed by a delimiter, printing the same are the same. */
  lemma Peel(s: string, r: string, s': string, r': string, special: char -> bool)
    requires Markable(special) && Clean(s) && Clean(s')
    requires r != [] && special(r[0]) && r' != [] && special(r'[0])
    requires Escape(s, special) + r == Escape(s', special) + r'
    ensures s == s' && r == r'
  {
    var e, e' := Escape(s, special), Escape(s', special);
    ScanFinds(s, r, special, ' ');
    ScanFinds(s', r', special, ' ');
    assert e == (e + r)[..|e|] && e' == (e' + r')[..|e'|];
    assert r == (e + r)[|e|..] && r' == (e' + r')[|e'|..];
    UnescapeUndoes(s, special);
    UnescapeUndoes(s', special);
  }

  // ---- Field values ----

  /** Free of delimiters, quotes and backslashes. */
  ghost predicate Plain(t: string) {
    ',' !in t && ' ' !in t && '=' !in t && '"' !in t && '\\' !in t
  }

  /** What is assumed of the float rendering: injective, and none of the delimiters or of the other values' marks. */
  ghost predicate RendersFloats<F(!new)>(render: F -> string) {
    && (forall f, g :: render(f) == render(g) ==> f == g)
    && (forall f :: render(f) != [] && render(f)[|render(f)| - 1] !in {'i', 'u', 'e'})
    && (forall f :: Plain(render(f)))
  }

  ghost predicate AtEnd(r: string) {
    r == [] || r[0] == ',' || r[0] == ' '
  }

  lemma NotLonger(v: string, r: string, v': string, r': string)
    requires ',' !in v' && ' ' !in v' && AtEnd(r) && v + r == v' + r'
    ensures |v'| <= |v|
  {
    var all := v + r;
    assert r != [] ==> all[|v|] == r[0];
    assert forall k :: 0 <= k < |v'| ==> (v' + r')[k] in v';
  }

  lemma PlainPeel(v: string, r: string, v': string, r': string)
    requires ',' !in v && ' ' !in v && ',' !in v' && ' ' !in v' && AtEnd(r) && AtEnd(r')
    requires v + r == v' + r'
    ensures v == v' && r == r'
  {
    NotLonger(v, r, v', r');
    NotLonger(v', r', v, r);
    assert v == (v + r)[..|v|] && r == (v + r)[|v|..];
    assert v' == (v' + r')[..|v'|] && r' == (v' + r')[|v'|..];
  }

  lemma TextStart(s: string, r: string)
    ensures var a := EscapeText(s) + "\"" + r;
            && (a[0] == '"' <==> s == [])
            && (s == [] ==> a[1..] == r)
  {
  }

  /** A quoted text ends at its own closing quote. */
  lemma {:induction false} QuotedPeel(s: string, r: string, s': string, r': string)
    requires EscapeText(s) + "\"" + r == EscapeText(s') + "\"" + r'
    ensures s == s' && r == r'
  {
    TextStart(s, r);
    TextStart(s', r');
    if s != [] {
      var a, b := EscapeText(s) + "\"" + r, EscapeText(s') + "\"" + r';
      var e, e' := EscapeText(s[1..]) + "\"" + r, EscapeText(s'[1..]) + "\"" + r';
      var marked, marked' := s[0] == '\\' || s[0] == '"', s'[0] == '\\' || s'[0] == '"';
      assert a == (if marked then ['\\', s[0]] else [s[0]]) + e;
      assert b == (if marked' then ['\\', s'[0]] else [s'[0]]) + e';
      assert a[0] == b[0] && marked == marked';
      assert marked ==> a[1] == b[1];
      assert e == a[if marked then 2 else 1..] && e' == b[if marked' then 2 else 1..];
      QuotedPeel(s[1..], r, s'[1..], r');
    }
  }

  lemma PlainValue<F(!new)>(v: FieldValue<F>, render: F -> string)
    requires RendersFloats(render) && !v.Text?
    ensures var t := ValueText(v, render);
            t != [] && Plain(t)
            && match v
               case Float(_) => t[|t| - 1] !in {'i', 'u', 'e'}
               case Integer(_) => t[|t| - 1] == 'i'
               case UInteger(_) => t[|t| - 1] == 'u'
               case _ => t[|t| - 1] == 'e'
  {
  }

  /** Two values followed by a delimiter or the end, printing the same, are the same. */
  lemma ValuePeel<F(!new)>(v: FieldValue<F>, r: string, v': FieldValue<F>, r': string, render: F -> string)
    requires RendersFloats(render) && AtEnd(r) && AtEnd(r')
    requires ValueText(v, render) + r == ValueText(v', render) + r'
    ensures v == v' && r == r'
  {
    var t, t' := ValueText(v, render), ValueText(v', render);
    assert (t + r)[0] == (t' + r')[0];
    hide RendersFloats, EscapeText, Digits, Signed;
    if v.Text? && v'.Text? {
      assert (t + r)[1..] == EscapeText(v.s) + "\"" + r;
      assert (t' + r')[1..] == EscapeText(v'.s) + "\"" + r';
      QuotedPeel(v.s, r, v'.s, r');
    } else if v.Text? {
      PlainValue(v', render);
      assert false;
    } else if v'.Text? {
      PlainValue(v, render);
      assert false;
    } else {
      PlainValue(v, render);
      PlainValue(v', render);
      PlainPeel(t, r, t', r');
      SameText(v, v', render);
    }
  }

  lemma SameText<F(!new)>(v: FieldValue<F>, v': FieldValue<F>, render: F -> string)
    requires RendersFloats(render) && !v.Text? && !v'.Text? && ValueText(v, render) == ValueText(v', render)
    ensures v == v'
  {
    PlainValue(v, render);
    PlainValue(v', render);
    var t := ValueText(v, render);
    match v {
      case Integer(i) =>
        assert t[..|t| - 1] == Signed(i) && t[..|t| - 1] == Signed(v'.i);
        SignedDenotes(i);
        SignedDenotes(v'.i);
      case UInteger(u) =>
        assert t[..|t| - 1] == Digits(u) && t[..|t| - 1] == Digits(v'.u);
        DigitsDenote(u);
        DigitsDenote(v'.u);
      case _ =>
    }
  }

  // ---- The whole line ----

  ghost predicate CleanLine<F>(l: Line<F>) {
    && Clean(l.measurement)
    && (forall k :: 0 <= k < |l.tags| ==> Clean(l.tags[k].0) && Clean(l.tags[k].1))
    && (forall k :: 0 <= k < |l.fields| ==> '\n' !in l.fields[k].0)
  }

  lemma DropMark(c: char, r: string, r': string)
    requires [c] + r == [c] + r'
    ensures r == r'
  {
    assert r == ([c] + r)[1..] && r' == ([c] + r')[1..];
  }

  /** Two key and value pairs printing the same, up to the value. */
  lemma KeyPeel(sep: char, key: string, r: string, key': string, r': string)
    requires Clean(key) && Clean(key')
    requires [sep] + (Escape(key, InTag) + ("=" + r)) == [sep] + (Escape(key', InTag) + ("=" + r'))
    ensures key == key' && r == r'
  {
    hide Escape;
    DropMark(sep, Escape(key, InTag) + ("=" + r), Escape(key', InTag) + ("=" + r'));
    Peel(key, "=" + r, key', "=" + r', InTag);
    DropMark('=', r, r');
  }

  lemma TagsStart(tags: seq<(string, string)>, r: string)
    requires r != [] && r[0] == ' '
    ensures TagsThen(tags, r) != [] && TagsThen(tags, r)[0] == (if tags == [] then ' ' else ',')
  {
    hide Escape;
  }

  lemma {:induction false} TagsPeel(tags: seq<(string, string)>, r: string, tags': seq<(string, string)>, r': string)
    requires forall k :: 0 <= k < |tags| ==> Clean(tags[k].0) && Clean(tags[k].1)
    requires forall k :: 0 <= k < |tags'| ==> Clean(tags'[k].0) && Clean(tags'[k].1)
    requires r != [] && r[0] == ' ' && r' != [] && r'[0] == ' '
    requires TagsThen(tags, r) == TagsThen(tags', r')
    ensures tags == tags' && r == r'
  {
    hide Escape, Clean;
    TagsStart(tags, r);
    TagsStart(tags', r');
    if tags != [] {
      var t, t' := tags[0], tags'[0];
      var rest, rest' := TagsThen(tags[1..], r), TagsThen(tags'[1..], r');
      TagsStart(tags[1..], r);
      TagsStart(tags'[1..], r');
      KeyPeel(',', t.0, Escape(t.1, InTag) + rest, t'.0, Escape(t'.1, InTag) + rest');
      Peel(t.1, rest, t'.1, rest', InTag);
      TagsPeel(tags[1..], r, tags'[1..], r');
      assert tags == [t] + tags[1..] && tags' == [t'] + tags'[1..];
    }
  }

  lemma TimePeel(t: Option<I64>, t': Option<I64>)
    requires TimeText(t) == TimeText(t')
    ensures t == t'
  {
    hide Signed;
    if t.Some? {
      DropMark(' ', Signed(t.value), Signed(t'.value));
      SignedDenotes(t.value);
      SignedDenotes(t'.value);
    }
  }

  lemma FieldsStart<F>(fields: seq<(string, FieldValue<F>)>, t: Option<I64>, sep: char, render: F -> string)
    ensures var a := FieldsThen(fields, sep, TimeText(t), render);
            (if fields != [] then a != [] && a[0] == sep else a == [] || a[0] == ' ')
  {
    hide Escape, ValueText, Signed;
  }

  // ---- Field keys, which may end in a backslash ----

  /** Every delimiter comes right after a backslash. */
  ghost predicate Guarded(m: string) {
    forall i :: 0 <= i < |m| && InTag(m[i]) ==> i > 0 && m[i - 1] == '\\'
  }

  lemma {:induction false} EscapeGuarded(k: string)
    ensures Guarded(Escape(k, InTag))
  {
    if k != [] {
      EscapeGuarded(k[1..]);
      EscapeStart(k[1..], InTag);
    }
  }

  /** A quoted text cut at a character that is never marked leaves a quoted text. */
  lemma {:induction false} CutText(t: string, rest: string, m: string, c: char, r: string) returns (b: string)
    requires EscapeText(t) + rest == m + [c] + r && |m| < |EscapeText(t)| && c != '\\' && c != '"'
    ensures EscapeText(b) + rest == r
  {
    var all, marked := m + [c] + r, t[0] == '\\' || t[0] == '"';
    var e := EscapeText(t[1..]);
    var n := if marked then 2 else 1;
    assert all == (if marked then ['\\', t[0]] else [t[0]]) + (e + rest);
    assert all[|m|] == c && all[n..] == e + rest;
    if |m| == 0 {
      b := t[1..];
      assert r == all[1..];
    } else {
      assert all[n..] == m[n..] + [c] + r;
      b := CutText(t[1..], rest, m[n..], c, r);
    }
  }

  /** A key that starts inside a quoted text ends inside it. */
  lemma KeyInText(t: string, rest: string, m: string, r: string) returns (b: string)
    requires AtEnd(rest) && Guarded(m) && EscapeText(t) + ("\"" + rest) == m + "=" + r
    ensures EscapeText(b) + ("\"" + rest) == r
  {
    var e, all := EscapeText(t), m + "=" + r;
    assert all[|e|] == '"' && all[|m|] == '=';
    assert rest != [] ==> all[|e| + 1] == rest[0];
    assert forall i :: 0 <= i < |m| ==> all[i] == m[i];
    b := CutText(t, "\"" + rest, m, '=', r);
  }

  /** One line is inside a text while the other starts a field: they cannot print alike from there on. */
  lemma {:induction false} InKey<F(!new)>(t: string, fs: seq<(string, FieldValue<F>)>, ts: Option<I64>,
        ks: seq<(string, FieldValue<F>)>, us: Option<I64>, render: F -> string)
    requires RendersFloats(render)
    ensures "," + (EscapeText(t) + ("\"" + FieldsThen(fs, ',', TimeText(ts), render)))
         != FieldsThen(ks, ',', TimeText(us), render)
    decreases |fs| + |ks|, 0
  {
    var rest := FieldsThen(fs, ',', TimeText(ts), render);
    var all := EscapeText(t) + ("\"" + rest);
    if "," + all == FieldsThen(ks, ',', TimeText(us), render) {
      FieldsStart(ks, us, ',', render);
      FieldsStart(fs, ts, ',', render);
      hide EscapeText, ValueText, TimeText, RendersFloats, Escape;
      var m, r := Escape(ks[0].0, InTag), ValueText(ks[0].1, render) + FieldsThen(ks[1..], ',', TimeText(us), render);
      assert FieldsThen(ks, ',', TimeText(us), render) == "," + (m + ("=" + r));
      DropMark(',', all, m + ("=" + r));
      Append(m, "=", r);
      EscapeGuarded(ks[0].0);
      var b := KeyInText(t, rest, m, r);
      InValue(b, fs, ts, ks[0].1, ks[1..], us, render);
    }
  }

  /** What is left after a value, seen from inside a text: a quote in it means that another field comes first. */
  ghost predicate Opens(r: string) {
    AtEnd(r) && ('"' in r ==> r[0] == ',')
  }

  lemma FieldsOpen<F>(fs: seq<(string, FieldValue<F>)>, ts: Option<I64>, render: F -> string)
    ensures Opens(FieldsThen(fs, ',', TimeText(ts), render))
  {
    hide Escape, ValueText;
  }

  /** A quote can only come first where the other text has ended. */
  lemma QuoteFirst(e: string, rest: string, s: string, more: string)
    requires e != [] ==> e[0] != '"'
    requires e + ("\"" + rest) == "\"" + s + "\"" + more
    ensures rest == s + ("\"" + more)
  {
    var all := "\"" + s + "\"" + more;
    assert e == [] by {
      assert all[0] == '"';
    }
    assert rest == all[1..];
    assert s + ("\"" + more) == all[1..];
  }

  lemma TextAfterText(t: string, rest: string, s: string, more: string) returns (d: string)
    requires Opens(rest) && EscapeText(t) + ("\"" + rest) == "\"" + EscapeText(s) + "\"" + more
    ensures "," + (EscapeText(d) + ("\"" + more)) == rest
  {
    var e := EscapeText(t);
    assert e != [] ==> e[0] != '"';
    hide EscapeText;
    var es := EscapeText(s);
    QuoteFirst(e, rest, es, more);
    assert rest[|es|] == '"';
    d := CutText(s, "\"" + more, [], ',', rest[1..]);
  }

  lemma TextAfterPlain(t: string, rest: string, p: string, more: string) returns (d: string)
    requires Plain(p) && Opens(more) && EscapeText(t) + ("\"" + rest) == p + more
    ensures "," + (EscapeText(d) + ("\"" + rest)) == more
  {
    hide EscapeText;
    var e, all := EscapeText(t), p + more;
    assert all[|e|] == '"';
    assert forall i :: 0 <= i < |p| ==> all[i] == p[i];
    assert more[|e| - |p|] == '"' && more[0] == ',';
    d := CutText(t, "\"" + rest, p, ',', more[1..]);
  }

  /** The same where the other line starts a value. */
  lemma {:induction false} InValue<F(!new)>(t: string, fs: seq<(string, FieldValue<F>)>, ts: Option<I64>,
        v: FieldValue<F>, ks: seq<(string, FieldValue<F>)>, us: Option<I64>, render: F -> string)
    requires RendersFloats(render)
    ensures EscapeText(t) + ("\"" + FieldsThen(fs, ',', TimeText(ts), render))
         != ValueText(v, render) + FieldsThen(ks, ',', TimeText(us), render)
    decreases |fs| + |ks|, 1
  {
    var rest, more := FieldsThen(fs, ',', TimeText(ts), render), FieldsThen(ks, ',', TimeText(us), render);
    var e, p := EscapeText(t), ValueText(v, render);
    if e + ("\"" + rest) == p + more {
      FieldsOpen(ks, us, render);
      FieldsOpen(fs, ts, render);
      hide *;
      if v.Text? {
        var d := TextAfterText(t, rest, v.s, more);
        InKey(d, ks, us, fs, ts, render);
      } else {
        PlainValue(v, render);
        var d := TextAfterPlain(t, rest, p, more);
        InKey(d, fs, ts, ks, us, render);
      }
    }
  }

  /** A key cannot run on past another line's key and into its value. */
  lemma LongerKey(p: string, rest: string, m: string, r: string)
    requires Plain(p) && p != [] && AtEnd(rest) && Guarded(m)
    ensures p + rest != m + "=" + r
  {
    var a, b := p + rest, m + "=" + r;
    assert rest != [] ==> a[|p|] == rest[0];
    assert b[|m|] == '=' && a[|p| - 1] == p[|p| - 1];
    assert forall i :: 0 <= i < |p| ==> a[i] == p[i];
    assert forall i :: 0 <= i < |m| ==> b[i] == m[i];
  }

  lemma KeyNotLonger<F(!new)>(k: string, v: FieldValue<F>, fs: seq<(string, FieldValue<F>)>, ts: Option<I64>,
        k': string, v': FieldValue<F>, fs': seq<(string, FieldValue<F>)>, ts': Option<I64>, render: F -> string)
    requires RendersFloats(render)
    requires Escape(k, InTag) + ("=" + (ValueText(v, render) + FieldsThen(fs, ',', TimeText(ts), render)))
          == Escape(k', InTag) + ("=" + (ValueText(v', render) + FieldsThen(fs', ',', TimeText(ts'), render)))
    ensures |Escape(k', InTag)| <= |Escape(k, InTag)|
  {
    var e, e', rest := Escape(k, InTag), Escape(k', InTag), FieldsThen(fs, ',', TimeText(ts), render);
    var r, r' := ValueText(v, render) + rest, ValueText(v', render) + FieldsThen(fs', ',', TimeText(ts'), render);
    FieldsStart(fs, ts, ',', render);
    hide Escape, TimeText, FieldsThen, RendersFloats, EscapeText, Plain, Guarded;
    if |e'| > |e| {
      EscapeGuarded(k');
      var m := e'[|e| + 1..];
      RunsOn(e, r, e', r');
      if v.Text? {
        var b := TextInText(v.s, rest, m, r');
        InValue(b, fs, ts, v', fs', ts', render);
      } else {
        PlainValue(v, render);
        LongerKey(ValueText(v, render), rest, m, r');
      }
    }
  }

  lemma TextInText(t: string, rest: string, m: string, r: string) returns (b: string)
    requires AtEnd(rest) && Guarded(m) && "\"" + EscapeText(t) + "\"" + rest == m + "=" + r
    ensures EscapeText(b) + ("\"" + rest) == r
  {
    hide EscapeText;
    var text, all := EscapeText(t) + ("\"" + rest), m + "=" + r;
    assert all == ['"'] + text;
    assert all[0] == '"' && all[|m|] == '=';
    assert m != [] ==> m[0] == all[0];
    var n := m[1..];
    assert all == ['"'] + (n + "=" + r);
    DropMark('"', text, n + "=" + r);
    b := KeyInText(t, rest, n, r);
  }

  lemma RunsOn(e: string, r: string, e': string, r': string)
    requires e + ("=" + r) == e' + ("=" + r') && |e'| > |e| && Guarded(e')
    ensures Guarded(e'[|e| + 1..]) && r == e'[|e| + 1..] + "=" + r'
  {
    var all := e + ("=" + r);
    assert all[|e|] == '=' && e'[|e|] == all[|e|];
    assert r == all[|e| + 1..];
    assert all == e' + ("=" + r');
  }

  lemma SameKey(k: string, r: string, k': string, r': string)
    requires '\n' !in k && '\n' !in k' && |Escape(k, InTag)| == |Escape(k', InTag)|
    requires Escape(k, InTag) + ("=" + r) == Escape(k', InTag) + ("=" + r')
    ensures k == k' && r == r'
  {
    var e, e' := Escape(k, InTag), Escape(k', InTag);
    assert e == (e + ("=" + r))[..|e|] && e' == (e' + ("=" + r'))[..|e|];
    assert "=" + r == (e + ("=" + r))[|e|..] && "=" + r' == (e' + ("=" + r'))[|e|..];
    DropMark('=', r, r');
    UnescapeUndoes(k, InTag);
    UnescapeUndoes(k', InTag);
  }

  lemma {:induction false} FieldsPeel<F(!new)>(fields: seq<(string, FieldValue<F>)>, t: Option<I64>,
        fields': seq<(string, FieldValue<F>)>, t': Option<I64>, sep: char, render: F -> string)
    requires RendersFloats(render)
    requires forall k :: 0 <= k < |fields| ==> '\n' !in fields[k].0
    requires forall k :: 0 <= k < |fields'| ==> '\n' !in fields'[k].0
    requires sep == ',' || (sep == ' ' && fields != [] && fields' != [])
    requires FieldsThen(fields, sep, TimeText(t), render) == FieldsThen(fields', sep, TimeText(t'), render)
    ensures fields == fields' && t == t'
  {
    hide Escape, ValueText, TimeText, RendersFloats;
    FieldsStart(fields, t, sep, render);
    FieldsStart(fields', t', sep, render);
    if fields == [] {
      TimePeel(t, t');
    } else {
      var f, f' := fields[0], fields'[0];
      var rest, rest' := FieldsThen(fields[1..], ',', TimeText(t), render),
          FieldsThen(fields'[1..], ',', TimeText(t'), render);
      FieldsStart(fields[1..], t, ',', render);
      FieldsStart(fields'[1..], t', ',', render);
      var r, r' := ValueText(f.1, render) + rest, ValueText(f'.1, render) + rest';
      DropMark(sep, Escape(f.0, InTag) + ("=" + r), Escape(f'.0, InTag) + ("=" + r'));
      KeyNotLonger(f.0, f.1, fields[1..], t, f'.0, f'.1, fields'[1..], t', render);
      KeyNotLonger(f'.0, f'.1, fields'[1..], t', f.0, f.1, fields[1..], t, render);
      SameKey(f.0, r, f'.0, r');
      ValuePeel(f.1, rest, f'.1, rest', render);
      FieldsPeel(fields[1..], t, fields'[1..], t', ',', render);
      assert fields == [f] + fields[1..] && fields' == [f'] + fields'[1..];
    }
  }

  /**
   Unambiguity: two lines whose names, keys and tag values have no newline, and whose names, tag keys and tag values do
   not end in a backslash, print the same only if they are the same line. Text values are arbitrary.
   */
  lemma PrintingIsUnambiguous<F(!new)>(l: Line<F>, l': Line<F>, render: F -> string)
    requires RendersFloats(render) && CleanLine(l) && CleanLine(l') && l.fields != [] && l'.fields != []
    requires Rendered(l, render) == Rendered(l', render)
    ensures l == l'
  {
    hide Escape, Clean, TagsThen, FieldsThen, TimeText, RendersFloats;
    var fields, fields' := FieldsText(l, render), FieldsText(l', render);
    FieldsStart(l.fields, l.timestamp, ' ', render);
    FieldsStart(l'.fields, l'.timestamp, ' ', render);
    TagsStart(l.tags, fields);
    TagsStart(l'.tags, fields');
    Peel(l.measurement, TagsThen(l.tags, fields), l'.measurement, TagsThen(l'.tags, fields'), InIdentifier);
    TagsPeel(l.tags, fields, l'.tags, fields');
    FieldsPeel(l.fields, l.timestamp, l'.fields, l'.timestamp, ' ', render);
  }

  // ---- Lines that print alike ----

  lemma {:induction false} EscapeConcat(s: string, t: string, special: char -> bool)
    ensures Escape(s + t, special) == Escape(s, special) + Escape(t, special)
  {
    if s == [] {
      assert s + t == t;
    } else {
      assert (s + t)[1..] == s[1..] + t;
      EscapeConcat(s[1..], t, special);
    }
  }

  /** What is marked, character by character; by `EscapeConcat` that settles every string. */
  lemma MarksExactly(c: char)
    ensures Escape([c], InIdentifier)
         == if c == ',' || c == ' ' then ['\\', c] else if c == '\n' then ['\\', 'n'] else [c]
    ensures Escape([c], InTag)
         == if c == ',' || c == '=' || c == ' ' then ['\\', c] else if c == '\n' then ['\\', 'n'] else [c]
    ensures EscapeText([c]) == if c == '\\' || c == '"' then ['\\', c] else [c]
  {
    assert [c][1..] == [];
  }

  lemma {:induction false} EscapeTextConcat(s: string, t: string)
    ensures EscapeText(s + t) == EscapeText(s) + EscapeText(t)
  {
    if s == [] {
      assert s + t == t;
    } else {
      assert (s + t)[1..] == s[1..] + t;
      EscapeTextConcat(s[1..], t);
    }
  }

  /** Every string with a newline prints like the same string with the two characters it becomes. */
  lemma NewlineCollides(s: string, t: string, special: char -> bool)
    requires Markable(special)
    ensures Escape(s + "\n" + t, special) == Escape(s + "\\n" + t, special)
  {
    hide Escape;
    EscapeConcat(s + "\n", t, special);
    EscapeConcat(s + "\\n", t, special);
    EscapeSnoc(s, '\n', special);
    EscapeSnoc(s, '\\', special);
    var marked := s + ['\\'];
    EscapeSnoc(marked, 'n', special);
    Append(s, ['\\'], ['n']);
    Append(Escape(s, special), ['\\'], ['n']);
    assert "\\n" == ['\\'] + ['n'];
  }

  lemma {:induction false} SameEscapes(s: string)
    requires '=' !in s
    ensures Escape(s, InTag) == Escape(s, InIdentifier)
  {
    if s != [] {
      assert s == [s[0]] + s[1..];
      SameEscapes(s[1..]);
    }
  }

  lemma EscapedName(s: string, k: string, v: string)
    requires '=' !in k && '=' !in v
    ensures Escape(s + "," + k + "=" + v, InIdentifier)
         == Escape(s, InIdentifier) + "\\" + "," + Escape(k, InTag) + "=" + Escape(v, InTag)
  {
    hide Escape;
    var name := s + ",";
    EscapeSnoc(s, ',', InIdentifier);
    Append(Escape(s, InIdentifier), "\\", ",");
    EscapeConcat(name, k, InIdentifier);
    var keyed := name + k;
    EscapeSnoc(keyed, '=', InIdentifier);
    EscapeConcat(keyed + "=", v, InIdentifier);
    SameEscapes(k);
    SameEscapes(v);
  }

  /** After a name that ends in a backslash the first tag reads as part of the name. */
  lemma FinalBackslashSwallowsATag<F>(s: string, k: string, v: string, l: Line<F>, render: F -> string)
    requires '=' !in k && '=' !in v
    ensures Rendered(l.(measurement := s + "\\", tags := [(k, v)] + l.tags), render)
         == Rendered(l.(measurement := s + "," + k + "=" + v), render)
  {
    hide Escape, FieldsThen, TimeText;
    var m := s + "," + k + "=" + v;
    var e, ek, ev := Escape(s, InIdentifier), Escape(k, InTag), Escape(v, InTag);
    EscapeSnoc(s, '\\', InIdentifier);
    EscapedName(s, k, v);
    var rest := TagsThen(l.tags, FieldsText(l, render));
    var tags := [(k, v)] + l.tags;
    assert tags[1..] == l.tags;
    assert TagsThen(tags, FieldsText(l, render)) == "," + (ek + ("=" + (ev + rest)));
    AppendPair(e + "\\", ",", ek, "=", ev, rest);
  }

  lemma EscapeJoin(s: string, c: char, t: string)
    requires InTag(c)
    ensures Escape(s + [c] + t, InTag) == Escape(s, InTag) + "\\" + [c] + Escape(t, InTag)
  {
    hide Escape;
    EscapeSnoc(s, c, InTag);
    EscapeConcat(s + [c], t, InTag);
    Append(Escape(s, InTag), "\\", [c]);
  }

  /** Final backslashes of tag keys alone: the equals sign that ends the key can be the first or the second. */
  lemma FinalKeyBackslashesCollide<F>(k: string, a: string, b: string, l: Line<F>, render: F -> string)
    ensures Rendered(l.(tags := [(k + "\\", a + "=" + b)] + l.tags), render)
         == Rendered(l.(tags := [(k + "=" + a + "\\", b)] + l.tags), render)
  {
    hide Escape, FieldsThen, TimeText;
    var ek, ea, eb := Escape(k, InTag), Escape(a, InTag), Escape(b, InTag);
    EscapeSnoc(k, '\\', InTag);
    EscapeSnoc(a, '\\', InTag);
    EscapeJoin(a, '=', b);
    EscapeJoin(k, '=', a + "\\");
    Append(k + "=", a, "\\");
    var rest := TagsThen(l.tags, FieldsText(l, render));
    var first, second := [(k + "\\", a + "=" + b)] + l.tags, [(k + "=" + a + "\\", b)] + l.tags;
    assert first[1..] == l.tags && second[1..] == l.tags;
    SameJoin(ek + "\\", "=", ea, "\\", "=", eb, rest);
  }

  /** Final backslashes of tag values alone: the comma that ends the value can be the first or the second. */
  lemma FinalValueBackslashesCollide<F>(k: string, v: string, w: string, a: string, b: string, l: Line<F>,
        render: F -> string)
    ensures Rendered(l.(tags := [(k, v + "\\"), (w + "," + a, b)] + l.tags), render)
         == Rendered(l.(tags := [(k, v + "," + w + "\\"), (a, b)] + l.tags), render)
  {
    hide Escape, FieldsThen, TimeText;
    var ek, ev, ew, ea, eb :=
      Escape(k, InTag), Escape(v, InTag), Escape(w, InTag), Escape(a, InTag), Escape(b, InTag);
    EscapeSnoc(v, '\\', InTag);
    EscapeSnoc(w, '\\', InTag);
    EscapeJoin(w, ',', a);
    EscapeJoin(v, ',', w + "\\");
    Append(v + ",", w, "\\");
    var rest := TagsThen(l.tags, FieldsText(l, render));
    var first, second := [(k, v + "\\"), (w + "," + a, b)] + l.tags, [(k, v + "," + w + "\\"), (a, b)] + l.tags;
    assert first[1..][1..] == l.tags && second[1..][1..] == l.tags;
    var more := "=" + (eb + rest);
    assert TagsThen(first[1..], FieldsText(l, render)) == "," + (Escape(w + "," + a, InTag) + more);
    assert TagsThen(second[1..], FieldsText(l, render)) == "," + (ea + more);
    SameJoin(ev + "\\", ",", ew, "\\", ",", ea, more);
  }

  lemma SameJoin(a: string, x: string, b: string, y: string, z: string, c: string, rest: string)
    ensures a + (x + (b + y + z + c + rest)) == a + x + (b + y) + (z + (c + rest))
  {
    Append(b + y + z, c, rest);
    Append(b + y, z, c + rest);
    Append(x, b + y, z + (c + rest));
    Append(a, x, b + y);
    Append(a, x + (b + y), z + (c + rest));
  }

  /** A tag key and value that both end in a backslash read, with the next tag, as one tag. */
  lemma FinalBackslashesMergeTags<F>(k: string, v: string, next: (string, string), l: Line<F>, render: F -> string)
    ensures Rendered(l.(tags := [(k + "\\", v + "\\"), next] + l.tags), render)
         == Rendered(l.(tags := [(k + "=" + v + "," + next.0, next.1)] + l.tags), render)
  {
    hide Escape, FieldsThen, TimeText;
    var ek, ev, ea, eb := Escape(k, InTag), Escape(v, InTag), Escape(next.0, InTag), Escape(next.1, InTag);
    EscapeSnoc(k, '\\', InTag);
    EscapeSnoc(v, '\\', InTag);
    MergedKey(k, v, next.0);
    var rest := TagsThen(l.tags, FieldsText(l, render));
    var two, one := [(k + "\\", v + "\\"), next] + l.tags, [(k + "=" + v + "," + next.0, next.1)] + l.tags;
    assert two[1..] == [next] + l.tags && two[1..][1..] == l.tags && one[1..] == l.tags;
    var more := "=" + (eb + rest);
    assert TagsThen(two, FieldsText(l, render)) == "," + (ek + "\\" + ("=" + (ev + "\\" + ("," + (ea + more)))));
    AppendPair(ek + "\\", "=", ev + "\\", ",", ea, more);
    Append(ek + "\\" + "=", ev, "\\");
    Append(ek, "\\", "=");
  }

  lemma MergedKey(k: string, v: string, a: string)
    ensures Escape(k + "=" + v + "," + a, InTag)
         == Escape(k, InTag) + "\\" + "=" + Escape(v, InTag) + "\\" + "," + Escape(a, InTag)
  {
    hide Escape;
    EscapeJoin(k, '=', v);
    EscapeJoin(k + "=" + v, ',', a);
  }

  // ---- One record, one line? ----

  lemma {:induction false} EscapeHasNoNewline(s: string, special: char -> bool)
    requires Markable(special)
    ensures '\n' !in Escape(s, special)
  {
    if s != [] { EscapeHasNoNewline(s[1..], special); }
  }

  lemma {:induction false} TextKeepsNewlines(s: string)
    ensures '\n' in EscapeText(s) <==> '\n' in s
  {
    if s != [] {
      TextKeepsNewlines(s[1..]);
      assert s == [s[0]] + s[1..];
    }
  }

  lemma {:induction false} TagsHaveNoNewline(tags: seq<(string, string)>, rest: string)
    ensures '\n' in TagsThen(tags, rest) <==> '\n' in rest
  {
    if tags != [] {
      EscapeHasNoNewline(tags[0].0, InTag);
      EscapeHasNoNewline(tags[0].1, InTag);
      TagsHaveNoNewline(tags[1..], rest);
    }
  }

  lemma ValueNewline<F(!new)>(v: FieldValue<F>, render: F -> string)
    requires forall f :: '\n' !in render(f)
    ensures '\n' in ValueText(v, render) <==> v.Text? && '\n' in v.s
  {
    if v.Text? {
      TextKeepsNewlines(v.s);
      var e := EscapeText(v.s);
      assert '\n' in "\"" + e + "\"" <==> '\n' in e;
    }
  }

  ghost predicate TextWithNewline<F>(fields: seq<(string, FieldValue<F>)>) {
    exists k :: 0 <= k < |fields| && fields[k].1.Text? && '\n' in fields[k].1.s
  }

  lemma {:induction false} FieldsNewline<F(!new)>(fields: seq<(string, FieldValue<F>)>, sep: char, rest: string,
        render: F -> string)
    requires (forall f :: '\n' !in render(f)) && sep != '\n' && '\n' !in rest
    ensures '\n' in FieldsThen(fields, sep, rest, render) <==> TextWithNewline(fields)
  {
    if fields != [] {
      var v, more := ValueText(fields[0].1, render), FieldsThen(fields[1..], ',', rest, render);
      EscapeHasNoNewline(fields[0].0, InTag);
      ValueNewline(fields[0].1, render);
      FieldsNewline(fields[1..], ',', rest, render);
      hide Escape, ValueText;
      assert '\n' in FieldsThen(fields, sep, rest, render) <==> '\n' in v || '\n' in more;
      assert TextWithNewline(fields) <==> '\n' in v || TextWithNewline(fields[1..]) by {
        if TextWithNewline(fields[1..]) {
          var k :| 0 <= k < |fields| - 1 && fields[1..][k].1.Text? && '\n' in fields[1..][k].1.s;
          assert fields[k + 1] == fields[1..][k];
        }
        if k :| 0 < k < |fields| && fields[k].1.Text? && '\n' in fields[k].1.s {
          assert fields[1..][k - 1] == fields[k];
        }
      }
    }
  }

  /**
   Newlines are rewritten to keep each record on one physical line, but not in texts: a record stays on one line if and
   only if no text field has a newline.
   */
  lemma OneLineIff<F(!new)>(l: Line<F>, render: F -> string)
    requires forall f :: '\n' !in render(f)
    ensures '\n' in Rendered(l, render) <==> TextWithNewline(l.fields)
  {
    var fields := FieldsText(l, render);
    assert '\n' !in TimeText(l.timestamp);
    FieldsNewline(l.fields, ' ', TimeText(l.timestamp), render);
    EscapeHasNoNewline(l.measurement, InIdentifier);
    TagsHaveNoNewline(l.tags, fields);
  }

  // ---- The same for real tag lists, which are sorted maps ----

  /** Strings in the order of their characters. */
  predicate Less(a: string, b: string) {
    b != [] && (a == [] || a[0] < b[0] || (a[0] == b[0] && Less(a[1..], b[1..])))
  }

  /** A tag map lists its keys in order, none twice. */
  predicate IsTagMap(tags: seq<(string, string)>) {
    forall j, k :: 0 <= j < k < |tags| ==> Less(tags[j].0, tags[k].0)
  }

  /** The three collisions are between tag maps: the first always, the others when the keys are in order. */
  lemma KeyCollisionIsReal<F>(k: string, a: string, b: string, l: Line<F>, render: F -> string)
    ensures var tags, tags' := [(k + "\\", a + "=" + b)], [(k + "=" + a + "\\", b)];
            && IsTagMap(tags) && IsTagMap(tags') && tags != tags'
            && Rendered(l.(tags := tags), render) == Rendered(l.(tags := tags'), render)
  {
    hide Rendered;
    FinalKeyBackslashesCollide(k, a, b, l.(tags := []), render);
    var tags, tags' := [(k + "\\", a + "=" + b)], [(k + "=" + a + "\\", b)];
    assert tags + [] == tags && tags' + [] == tags' && |tags[0].1| > |tags'[0].1|;
  }

  lemma ValueCollisionIsReal<F>(k: string, v: string, w: string, a: string, b: string, l: Line<F>, render: F -> string)
    requires Less(k, w + "," + a) && Less(k, a)
    ensures var tags, tags' := [(k, v + "\\"), (w + "," + a, b)], [(k, v + "," + w + "\\"), (a, b)];
            && IsTagMap(tags) && IsTagMap(tags') && tags != tags'
            && Rendered(l.(tags := tags), render) == Rendered(l.(tags := tags'), render)
  {
    hide Rendered, Less;
    FinalValueBackslashesCollide(k, v, w, a, b, l.(tags := []), render);
    var tags, tags' := [(k, v + "\\"), (w + "," + a, b)], [(k, v + "," + w + "\\"), (a, b)];
    assert tags + [] == tags && tags' + [] == tags' && |tags[1].0| > |tags'[1].0|;
  }

  lemma MergeCollisionIsReal<F>(k: string, v: string, next: (string, string), l: Line<F>, render: F -> string)
    requires Less(k + "\\", next.0)
    ensures var tags, tags' := [(k + "\\", v + "\\"), next], [(k + "=" + v + "," + next.0, next.1)];
            && IsTagMap(tags) && IsTagMap(tags')
            && Rendered(l.(tags := tags), render) == Rendered(l.(tags := tags'), render)
  {
    hide Rendered, Less;
    FinalBackslashesMergeTags(k, v, next, l.(tags := []), render);
    var tags, tags' := [(k + "\\", v + "\\"), next], [(k + "=" + v + "," + next.0, next.1)];
    assert tags + [] == tags && tags' + [] == tags';
  }
}
