/** Parsing a pressure-stall file (src/pressure.rs): find the `some` line, read its averages.

    The number format is a parameter: `parse` stands for the standard float parser. */
module Pressure {
  import opened Options

  // ---- text

  /** Unicode white space, as trimming and splitting use it. */
  predicate White(c: char) {
    || '\t' <= c <= '\r' || c == ' '
    || c == '\U{0085}' || c == '\U{00A0}' || c == '\U{1680}'
    || '\U{2000}' <= c <= '\U{200A}' || c == '\U{2028}' || c == '\U{2029}'
    || c == '\U{202F}' || c == '\U{205F}' || c == '\U{3000}'
  }

  predicate Solid(s: string) { forall i :: 0 <= i < |s| ==> !White(s[i]) }

  /** The position of the first `c`, or the length. */
  function IndexOf(s: string, c: char): (n: nat)
    ensures n <= |s|
    ensures n < |s| ==> s[n] == c
    ensures forall i :: 0 <= i < n ==> s[i] != c
  {
    if s == [] || s[0] == c then 0 else 1 + IndexOf(s[1..], c)
  }

  function StripReturn(line: string): string {
    if line != [] && line[|line| - 1] == '\r' then line[..|line| - 1] else line
  }

  /** The lines of a text, without their line ends. */
  function Lines(text: string): seq<string>
    decreases |text|
  {
    var n := IndexOf(text, '\n');
    if text == [] then []
    else if n == |text| then [text]
    else [StripReturn(text[..n])] + Lines(text[n + 1..])
  }

  function TrimStart(s: string): (r: string)
    ensures |r| <= |s|
    ensures r != [] ==> !White(r[0])
  {
    if s != [] && White(s[0]) then TrimStart(s[1..]) else s
  }

  function TrimEnd(s: string): string {
    if s != [] && White(s[|s| - 1]) then TrimEnd(s[..|s| - 1]) else s
  }

  function Trim(s: string): string { TrimEnd(TrimStart(s)) }

  /** The length of the leading part without white space. */
  function TokenLength(s: string): (n: nat)
    ensures n <= |s|
    ensures s != [] && !White(s[0]) ==> n > 0
  {
    if s == [] || White(s[0]) then 0 else 1 + TokenLength(s[1..])
  }

  function SplitWhite(s: string): seq<string>
    decreases |s|
  {
    var t := TrimStart(s);
    if t == [] then [] else [t[..TokenLength(t)]] + SplitWhite(t[TokenLength(t)..])
  }

  // ---- the parser

  datatype Sample<V> = Sample(avg10: V, avg60: V, avg300: V)

  /** The averages found so far. */
  datatype Found<V> = Found(avg10: Option<V>, avg60: Option<V>, avg300: Option<V>)

  function Note<V>(found: Found<V>, key: string, v: V): Found<V> {
    if key == "avg10" then found.(avg10 := Some(v))
    else if key == "avg60" then found.(avg60 := Some(v))
    else if key == "avg300" then found.(avg300 := Some(v))
    else found
  }

  function Complete<V>(found: Found<V>): Option<Sample<V>> {
    if found.avg10.Some? && found.avg60.Some? && found.avg300.Some? then
      Some(Sample(found.avg10.value, found.avg60.value, found.avg300.value))
    else None
  }

  /** The fields of a line from left to right; one bad field spoils the line. */
  function ReadFields<V>(fields: seq<string>, parse: string -> Option<V>, found: Found<V>): Option<Sample<V>> {
    if fields == [] then Complete(found)
    else
      var n := IndexOf(fields[0], '=');
      if n == |fields[0]| then None
      else match parse(fields[0][n + 1..])
        case None => None
        case Some(v) => ReadFields(fields[1..], parse, Note(found, fields[0][..n], v))
  }

  const SOME := "some "

  predicate IsSomeLine(line: string) { SOME <= Trim(line) }

  function ReadLine<V>(line: string, parse: string -> Option<V>): Option<Sample<V>>
    requires IsSomeLine(line)
  {
    ReadFields(SplitWhite(Trim(line)[|SOME|..]), parse, Found(None, None, None))
  }

  /** The first `some` line decides. */
  function ReadLines<V>(lines: seq<string>, parse: string -> Option<V>): Option<Sample<V>> {
    if lines == [] then None
    else if IsSomeLine(lines[0]) then ReadLine(lines[0], parse)
    else ReadLines(lines[1..], parse)
  }

  /** The loop over the lines; the first `some` line returns. */
  method ParseSome<V>(text: string, parse: string -> Option<V>) returns (r: Option<Sample<V>>)
    ensures r == ReadLines(Lines(text), parse)
  {
    var lines := Lines(text);
    for i := 0 to |lines|
      invariant ReadLines(lines, parse) == ReadLines(lines[i..], parse)
    {
      var line := Trim(lines[i]);
      assert lines[i..][1..] == lines[i + 1..];
      if SOME <= line {
        r := ParseFields(SplitWhite(line[|SOME|..]), parse);
        return;
      }
    }
    return None;
  }

  /** The loop over the fields of the line, with its early returns. */
  method ParseFields<V>(fields: seq<string>, parse: string -> Option<V>) returns (r: Option<Sample<V>>)
    ensures r == ReadFields(fields, parse, Found(None, None, None))
  {
    var avg10, avg60, avg300 := None, None, None;
    for k := 0 to |fields|
      invariant ReadFields(fields, parse, Found(None, None, None))
             == ReadFields(fields[k..], parse, Found(avg10, avg60, avg300))
    {
      assert fields[k..][1..] == fields[k + 1..];
      var n := IndexOf(fields[k], '=');
      if n == |fields[k]| {
        return None;
      }
      var key, v := fields[k][..n], parse(fields[k][n + 1..]);
      if v.None? {
        return None;
      }
      match key {
        case "avg10" => avg10 := v;
        case "avg60" => avg60 := v;
        case "avg300" => avg300 := v;
        case _ =>
      }
    }
    return Complete(Found(avg10, avg60, avg300));
  }

  // ---- only the first `some` line matters

  /** Lines before the first `some` line that are not `some` lines, and all lines after it, do not count. */
  lemma {:induction false} FirstSomeLineDecides<V>(before: seq<string>, line: string, after: seq<string>, parse: string -> Option<V>)
    requires IsSomeLine(line) && forall i :: 0 <= i < |before| ==> !IsSomeLine(before[i])
    ensures ReadLines(before + [line] + after, parse) == ReadLine(line, parse)
  {
    var all := before + [line] + after;
    if before == [] {
      assert all[0] == line;
    } else {
      FirstSomeLineDecides(before[1..], line, after, parse);
      assert all[1..] == before[1..] + [line] + after;
    }
  }

  // ---- what lines, trimming and fields are

  /** A line ends at a line feed, and one carriage return before it goes with it; the last line needs no
      line feed, and keeps its carriage return. */
  lemma LineEnds(line: string, rest: string)
    requires '\n' !in line
    ensures
      var stripped := if line != [] && line[|line| - 1] == '\r' then line[..|line| - 1] else line;
      Lines(line + "\n" + rest) == [stripped] + Lines(rest)
    ensures Lines(line) == if line == [] then [] else [line]
  {
    var all := line + "\n" + rest;
    IndexAfter(line, '\n', rest);
    assert all == line + ['\n'] + rest;
    assert all[..|line|] == line && all[|line| + 1..] == rest;
  }

  predicate AllWhite(s: string) { forall i :: 0 <= i < |s| ==> White(s[i]) }

  /** Trimming takes away exactly the white space around a text. */
  lemma TrimIsExact(before: string, core: string, after: string)
    requires AllWhite(before) && AllWhite(after)
    requires core != [] ==> !White(core[0]) && !White(core[|core| - 1])
    ensures Trim(before + core + after) == core
  {
    if core == [] {
      var s := before + core + after;
      assert s + [] == s;
      TrimStartSkips(s, []);
    } else {
      assert before + core + after == before + (core + after);
      TrimStartSkips(before, core + after);
      assert (core + after)[0] == core[0];
      TrimEndSkips(core, after);
    }
  }

  lemma {:induction false} TrimStartSkips(before: string, rest: string)
    requires AllWhite(before)
    ensures TrimStart(before + rest) == TrimStart(rest)
  {
    if before == [] {
      assert before + rest == rest;
    } else {
      assert (before + rest)[1..] == before[1..] + rest;
      TrimStartSkips(before[1..], rest);
    }
  }

  lemma {:induction false} TrimEndSkips(core: string, after: string)
    requires AllWhite(after) && core != [] && !White(core[|core| - 1])
    ensures TrimEnd(core + after) == core
  {
    if after == [] {
      assert core + after == core;
    } else {
      var n := |after| - 1;
      assert (core + after)[..|core + after| - 1] == core + after[..n];
      TrimEndSkips(core, after[..n]);
    }
  }

  /** A field that can be read: it has an equals sign, and what follows the first one is a number. */
  predicate Readable<V>(field: string, parse: string -> Option<V>) {
    var n := IndexOf(field, '=');
    '=' in field && n < |field| && parse(field[n + 1..]).Some?
  }

  predicate HasKey(field: string, key: string) { key + "=" <= field && '=' !in key }

  /** The number of the last field of that name, if there is one. */
  function LastNumber<V>(fields: seq<string>, parse: string -> Option<V>, key: string, start: Option<V>): Option<V> {
    if fields == [] then start
    else LastNumber(fields[1..], parse, key, if HasKey(fields[0], key) then parse(fields[0][|key| + 1..]) else start)
  }

  /** A sample has the three averages; without one of them there is none. */
  ghost predicate IsSampleOf<V>(r: Option<Sample<V>>, avg10: Option<V>, avg60: Option<V>, avg300: Option<V>) {
    match r
    case Some(sample) => avg10 == Some(sample.avg10) && avg60 == Some(sample.avg60) && avg300 == Some(sample.avg300)
    case None => avg10.None? || avg60.None? || avg300.None?
  }

  /** Reading a line, exactly: one field that cannot be read, for want of an equals sign or of a number,
      spoils the line; otherwise the last number under each name counts, and all three are needed. */
  lemma {:induction false} FieldsExactly<V>(fields: seq<string>, parse: string -> Option<V>, found: Found<V>)
    ensures
      var r := ReadFields(fields, parse, found);
      if exists i :: 0 <= i < |fields| && !Readable(fields[i], parse) then r == None
      else
        IsSampleOf(r, LastNumber(fields, parse, "avg10", found.avg10), LastNumber(fields, parse, "avg60", found.avg60),
                   LastNumber(fields, parse, "avg300", found.avg300))
  {
    if fields != [] {
      var f := fields[0];
      var n := IndexOf(f, '=');
      FirstEquals(f);
      if Readable(f, parse) {
        KeyIs(f, "avg10");
        KeyIs(f, "avg60");
        KeyIs(f, "avg300");
        FieldsExactly(fields[1..], parse, Note(found, f[..n], parse(f[n + 1..]).value));
        assert forall i :: 0 < i < |fields| ==> fields[i] == fields[1..][i - 1];
      }
    }
  }

  lemma FirstEquals(f: string)
    ensures '=' in f <==> IndexOf(f, '=') < |f|
  {
    if i :| 0 <= i < |f| && f[i] == '=' { assert IndexOf(f, '=') <= i; }
  }

  /** The name of a field is what stands before its first equals sign. */
  lemma KeyIs(f: string, key: string)
    requires '=' !in key && IndexOf(f, '=') < |f|
    ensures HasKey(f, key) <==> f[..IndexOf(f, '=')] == key
  {
    var n := IndexOf(f, '=');
    if HasKey(f, key) {
      assert f[|key|] == '=' && f[..|key|] == key;
      forall i | 0 <= i < |key| ensures f[i] != '=' { assert f[i] == key[i] && key[i] in key; }
    }
    if f[..n] == key { assert f[..n + 1] == key + "="; }
  }

  // ---- a rendered line parses back

  /** A number format whose parser undoes its printer, without white space. */
  datatype Format<!V> = Format(show: V -> string, parse: string -> Option<V>)

  ghost predicate Faithful<V(!new)>(format: Format<V>) {
    forall v: V :: format.parse(format.show(v)) == Some(v) && Solid(format.show(v))
  }

  datatype Field<V> = Field(key: string, value: V)

  /** A field name: no white space, no equals sign. */
  predicate IsKey(key: string) { Solid(key) && '=' !in key }

  function Token<V>(format: Format<V>, field: Field<V>): string { field.key + "=" + format.show(field.value) }

  /** The tokens separated by single spaces. */
  function Joined(tokens: seq<string>): string {
    if tokens == [] then "" else if |tokens| == 1 then tokens[0] else tokens[0] + " " + Joined(tokens[1..])
  }

  function Tokens<V>(format: Format<V>, fields: seq<Field<V>>): seq<string> {
    if fields == [] then [] else [Token(format, fields[0])] + Tokens(format, fields[1..])
  }

  function RenderLine<V>(format: Format<V>, fields: seq<Field<V>>): string {
    "some " + Joined(Tokens(format, fields))
  }

  /** The value of the last field of that name. */
  function Last<V>(fields: seq<Field<V>>, key: string, start: Option<V>): Option<V> {
    if fields == [] then start
    else Last(fields[1..], key, if fields[0].key == key then Some(fields[0].value) else start)
  }

  predicate IsToken(s: string) { s != [] && Solid(s) }

  lemma TokenIsSolid<V(!new)>(format: Format<V>, field: Field<V>)
    requires Faithful(format) && IsKey(field.key)
    ensures IsToken(Token(format, field))
    ensures IndexOf(Token(format, field), '=') == |field.key|
  {
    var value := format.show(field.value);
    assert Solid(value);
    IndexAfter(field.key, '=', value);
    assert field.key + "=" + value == field.key + ['='] + value;
  }

  lemma {:induction false} IndexAfter(s: string, c: char, rest: string)
    requires c !in s
    ensures IndexOf(s + [c] + rest, c) == |s|
  {
    var all := s + [c] + rest;
    assert all[|s|] == c;
    forall i | 0 <= i < |s| ensures all[i] != c { assert all[i] == s[i] && s[i] in s; }
  }

  lemma {:induction false} TokensAreSolid<V(!new)>(format: Format<V>, fields: seq<Field<V>>)
    requires Faithful(format) && forall i :: 0 <= i < |fields| ==> IsKey(fields[i].key)
    ensures |Tokens(format, fields)| == |fields|
    ensures forall i :: 0 <= i < |fields| ==> IsToken(Tokens(format, fields)[i])
  {
    if fields != [] {
      TokenIsSolid(format, fields[0]);
      TokensAreSolid(format, fields[1..]);
    }
  }

  lemma {:induction false} TokenLengthIs(token: string, rest: string)
    requires Solid(token) && (rest == [] || White(rest[0]))
    ensures TokenLength(token + rest) == |token|
  {
    if token == [] {
      assert token + rest == rest;
    } else {
      TokenLengthIs(token[1..], rest);
      assert (token + rest)[1..] == token[1..] + rest;
    }
  }

  /** Splitting undoes joining. */
  lemma {:induction false} SplitUndoesJoin(tokens: seq<string>)
    requires forall i :: 0 <= i < |tokens| ==> IsToken(tokens[i])
    ensures SplitWhite(Joined(tokens)) == tokens
  {
    if tokens == [] {
    } else if |tokens| == 1 {
      TokenLengthIs(tokens[0], "");
      assert tokens[0] + "" == tokens[0];
      assert SplitWhite("") == [];
    } else {
      var rest := Joined(tokens[1..]);
      SplitUndoesJoin(tokens[1..]);
      SplitHead(tokens[0], rest);
    }
  }

  lemma SplitHead(token: string, rest: string)
    requires IsToken(token)
    ensures SplitWhite(token + " " + rest) == [token] + SplitWhite(rest)
  {
    var s, tail := token + " " + rest, " " + rest;
    assert s == token + tail;
    TokenLengthIs(token, tail);
    assert s[|token|..] == tail;
    assert tail[1..] == rest;
    assert SplitWhite(tail) == SplitWhite(rest);
  }

  /** A joined line neither starts nor ends with white space and holds no line end. */
  lemma {:induction false} JoinedIsTrimmed(tokens: seq<string>)
    requires tokens != [] && forall i :: 0 <= i < |tokens| ==> IsToken(tokens[i])
    ensures var s := Joined(tokens);
      s != [] && !White(s[0]) && !White(s[|s| - 1]) && '\n' !in s
  {
    if |tokens| > 1 { JoinedIsTrimmed(tokens[1..]); }
  }

  lemma RenderedIsSomeLine<V(!new)>(format: Format<V>, fields: seq<Field<V>>)
    requires Faithful(format) && fields != [] && forall i :: 0 <= i < |fields| ==> IsKey(fields[i].key)
    ensures var line := RenderLine(format, fields);
      && Trim(line) == line && IsSomeLine(line) && PlainLine(line)
      && SplitWhite(line[|SOME|..]) == Tokens(format, fields)
  {
    var tokens, line := Tokens(format, fields), RenderLine(format, fields);
    TokensAreSolid(format, fields);
    JoinedIsTrimmed(tokens);
    SplitUndoesJoin(tokens);
    assert line[0] == 's' && line[|line| - 1] == Joined(tokens)[|Joined(tokens)| - 1];
    assert line[|SOME|..] == Joined(tokens);
    assert '\n' !in SOME;
  }

  /** Reading rendered fields finds, for each average, the last field of its name. */
  lemma {:induction false} ReadTokens<V(!new)>(format: Format<V>, fields: seq<Field<V>>, found: Found<V>)
    requires Faithful(format) && forall i :: 0 <= i < |fields| ==> IsKey(fields[i].key)
    ensures ReadFields(Tokens(format, fields), format.parse, found)
         == Complete(Found(Last(fields, "avg10", found.avg10), Last(fields, "avg60", found.avg60), Last(fields, "avg300", found.avg300)))
  {
    if fields != [] {
      var f, tokens := fields[0], Tokens(format, fields);
      TokenIsSolid(format, f);
      assert tokens[0] == Token(format, f) && tokens[1..] == Tokens(format, fields[1..]);
      assert tokens[0][..|f.key|] == f.key && tokens[0][|f.key| + 1..] == format.show(f.value);
      ReadTokens(format, fields[1..], Note(found, f.key, f.value));
    }
  }

  // ---- whole files

  /** A line that can be written: it holds no line feed and does not end in a carriage return. */
  predicate PlainLine(line: string) { '\n' !in line && (line == [] || line[|line| - 1] != '\r') }

  function Text(lines: seq<string>): string {
    if lines == [] then "" else lines[0] + "\n" + Text(lines[1..])
  }

  /** Splitting a text into lines gives the written lines back, whatever follows. */
  lemma {:induction false} LinesOfText(lines: seq<string>, more: string)
    requires forall i :: 0 <= i < |lines| ==> PlainLine(lines[i])
    ensures Lines(Text(lines) + more) == lines + Lines(more)
  {
    if lines == [] {
      assert Text(lines) + more == more;
    } else {
      var rest := Text(lines[1..]) + more;
      LinesOfText(lines[1..], more);
      LinesHead(lines[0], rest);
      ConcatAssoc(lines[0] + "\n", Text(lines[1..]), more);
      ConcatAssoc([lines[0]], lines[1..], Lines(more));
      assert [lines[0]] + lines[1..] == lines;
    }
  }

  lemma ConcatAssoc<T>(a: seq<T>, b: seq<T>, c: seq<T>)
    ensures (a + b) + c == a + (b + c)
  {
  }

  lemma LinesHead(line: string, rest: string)
    requires PlainLine(line)
    ensures Lines(line + "\n" + rest) == [line] + Lines(rest)
  {
    var all := line + "\n" + rest;
    IndexAfter(line, '\n', rest);
    assert all == line + ['\n'] + rest;
    assert all[..|line|] == line && all[|line| + 1..] == rest;
  }

  /** Round trip. Render any fields, in any order and with any extra ones, as a `some` line; put any
      other lines before it and any text after it. Parsing gives exactly the last value of each of the
      three averages, and nothing if one of them is missing. */
  lemma RenderedFileParsesBack<V(!new)>(format: Format<V>, before: seq<string>, fields: seq<Field<V>>, after: string)
    requires Faithful(format)
    requires fields != [] && forall i :: 0 <= i < |fields| ==> IsKey(fields[i].key)
    requires forall i :: 0 <= i < |before| ==> PlainLine(before[i]) && !IsSomeLine(before[i])
    ensures IsSampleOf(ReadLines(Lines(Text(before + [RenderLine(format, fields)]) + after), format.parse),
                       Last(fields, "avg10", None), Last(fields, "avg60", None), Last(fields, "avg300", None))
  {
    var line := RenderLine(format, fields);
    RenderedIsSomeLine(format, fields);
    LinesOfText(before + [line], after);
    FirstSomeLineDecides(before, line, Lines(after), format.parse);
    ReadTokens(format, fields, Found(None, None, None));
  }
}
