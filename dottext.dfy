/** The text pieces of a DOT statement: escaping of quoted strings, the
    labels of characters and byte buffers, and a reader for the statement
    lines the renderer writes, so that what a line says can be stated. */
module DotText {
  import opened Wrappers
  import opened Graph
  import opened Strings
  import opened Ranges

  /** The characters that the renderer escapes inside a quoted string. */
  predicate NeedsEscape(c: char)
  {
    c == '\\' || c == '"'
  }

  /** Prefixes every backslash and double quote with a backslash. */
  function Escape(s: string): string
  {
    if s == [] then []
    else (if NeedsEscape(s[0]) then ['\\', s[0]] else [s[0]]) + Escape(s[1..])
  }

  function EscapeCount(s: string): nat
  {
    if s == [] then 0 else (if NeedsEscape(s[0]) then 1 else 0) + EscapeCount(s[1..])
  }

  /** Escaping adds exactly one character per backslash or double quote. */
  lemma {:induction false} EscapeLength(s: string)
    ensures |Escape(s)| == |s| + EscapeCount(s)
  {
    if s != [] {
      EscapeLength(s[1..]);
    }
  }

  /** Escaping works character by character. */
  lemma {:induction false} EscapeAppend(a: string, b: string)
    ensures Escape(a + b) == Escape(a) + Escape(b)
  {
    if a == [] {
      assert a + b == b;
    } else {
      assert (a + b)[1..] == a[1..] + b;
      EscapeAppend(a[1..], b);
    }
  }

  /** `s` holds no character that escaping changes. */
  predicate Plain(s: string)
  {
    forall i :: 0 <= i < |s| ==> !NeedsEscape(s[i])
  }

  /** Text without backslashes and double quotes is left as it is. */
  lemma {:induction false} EscapePlain(s: string)
    requires Plain(s)
    ensures Escape(s) == s
  {
    if s != [] {
      EscapePlain(s[1..]);
    }
  }

  /** Reads the body of a quoted DOT string up to (not including) its
      closing double quote, dropping the backslash of each escape; gives the
      value and the rest of the text from the closing quote on. */
  function ReadQuoted(s: string): Option<(string, string)>
  {
    if s == [] then None
    else if s[0] == '"' then Some(([], s))
    else if s[0] == '\\' && |s| >= 2 then
      var tail :- ReadQuoted(s[2..]);
      Some(([s[1]] + tail.0, tail.1))
    else
      var tail :- ReadQuoted(s[1..]);
      Some(([s[0]] + tail.0, tail.1))
  }

  /** An escaped value followed by a double quote reads back as the value:
      the escaping never ends a quoted string early. */
  lemma {:induction false} ReadQuotedEscape(v: string, rest: string)
    requires |rest| > 0 && rest[0] == '"'
    ensures ReadQuoted(Escape(v) + rest) == Some((v, rest))
  {
    if v == [] {
      assert Escape(v) + rest == rest;
    } else {
      var head := if NeedsEscape(v[0]) then ['\\', v[0]] else [v[0]];
      var s := Escape(v) + rest;
      ReadQuotedEscape(v[1..], rest);
      assert s == head + (Escape(v[1..]) + rest);
      assert [v[0]] + v[1..] == v;
    }
  }

  /** Strips `prefix` from the front of `s`. */
  function Expect(prefix: string, s: string): (r: Option<string>)
    ensures r.Some? <==> prefix <= s
    ensures r.Some? ==> s == prefix + r.value
  {
    if prefix <= s then Some(s[|prefix|..]) else None
  }

  /** Strips the separator `prefix` and reads the quoted value after it. */
  function ReadField(prefix: string, s: string): Option<(string, string)>
  {
    var r :- Expect(prefix, s);
    ReadQuoted(r)
  }

  lemma ReadFieldEscape(prefix: string, v: string, rest: string)
    requires |rest| > 0 && rest[0] == '"'
    ensures ReadField(prefix, prefix + (Escape(v) + rest)) == Some((v, rest))
  {
    var s := prefix + (Escape(v) + rest);
    assert s[|prefix|..] == Escape(v) + rest;
    ReadQuotedEscape(v, rest);
  }

  /** What one edge statement says. */
  datatype Statement = Statement(source: string, target: string, caption: string, color: string)

  /** An edge statement as the renderer writes it: source and target names
      escaped, label and colour inserted as given. */
  function Line(source: string, target: string, caption: string, color: string): string
  {
    "  \"" + (Escape(source) + ("\" -> \"" + (Escape(target) + ("\" [label=\"" + (caption
      + ("\" color=\"" + (color + "\"];\n")))))))
  }

  /** Reads back an edge statement. */
  function ParseLine(line: string): Option<Statement>
  {
    var source :- ReadField("  \"", line);
    var target :- ReadField("\" -> \"", source.1);
    var caption :- ReadField("\" [label=\"", target.1);
    var color :- ReadField("\" color=\"", caption.1);
    if color.1 == "\"];\n" then Some(Statement(source.0, target.0, caption.0, color.0)) else None
  }

  /** A statement whose label and colour are escaped texts reads back as
      the names, label and colour it was written from. */
  lemma LineRoundTrip(source: string, target: string, caption: string, color: string)
    ensures ParseLine(Line(source, target, Escape(caption), Escape(color)))
      == Some(Statement(source, target, caption, color))
  {
    var r4 := "\"];\n";
    var r3 := "\" color=\"" + (Escape(color) + r4);
    var r2 := "\" [label=\"" + (Escape(caption) + r3);
    var r1 := "\" -> \"" + (Escape(target) + r2);
    ReadFieldEscape("  \"", source, r1);
    ReadFieldEscape("\" -> \"", target, r2);
    ReadFieldEscape("\" [label=\"", caption, r3);
    ReadFieldEscape("\" color=\"", color, r4);
  }

  /** The character of the same code as a byte. */
  function CharOf(b: byte): char
  {
    b as int as char
  }

  predicate Printable(code: byte)
  {
    0x20 <= code <= 0x7e
  }

  /** A byte as `0x` and two lower-case hex digits. */
  function HexByte(code: byte): string
  {
    var h := Digits(code as nat, 16);
    "0x" + (if |h| < 2 then "0" + h else h)
  }

  /** The label of one character of a range: printable ASCII quoted and
      escaped, anything else in hex. */
  function BuildChar(code: byte): string
  {
    if Printable(code) then Escape(['\'', CharOf(code), '\'']) else HexByte(code)
  }

  /** The unescaped text `BuildChar` stands for. */
  function CharText(code: byte): string
  {
    if Printable(code) then ['\'', CharOf(code), '\''] else HexByte(code)
  }

  /** Reads a character label back. */
  function ReadChar(t: string): Option<byte>
  {
    if |t| == 3 && t[0] == '\'' && t[2] == '\'' && 0x20 <= t[1] as int <= 0x7e then
      Some(t[1] as int as byte)
    else if |t| == 4 && t[..2] == "0x" && IsDigitChar(t[2], 16) && IsDigitChar(t[3], 16)
      && DigitsValue(t[2..], 16) < 256 then
      Some(DigitsValue(t[2..], 16) as byte)
    else None
  }

  lemma HexByteSpec(code: byte)
    ensures |HexByte(code)| == 4 && HexByte(code)[..2] == "0x"
    ensures IsDigitChar(HexByte(code)[2], 16) && IsDigitChar(HexByte(code)[3], 16)
    ensures DigitsValue(HexByte(code)[2..], 16) == code as nat
  {
    var h := Digits(code as nat, 16);
    HexDigitsLength(code as nat);
    DigitsRoundTrip(code as nat, 16);
    var t := HexByte(code);
    if |h| < 2 {
      assert t[2..] == ['0', h[0]];
      assert t[2..][..1] == ['0'] && ['0'][..0] == [];
      assert h[..0] == [];
    } else {
      assert t[2..] == h;
    }
  }

  /** A character label is the escaped form of its text, is three
      characters for printable ASCII and four otherwise, and reads back as
      the byte. */
  lemma BuildCharSpec(code: byte)
    ensures BuildChar(code) == Escape(CharText(code))
    ensures |CharText(code)| == if Printable(code) then 3 else 4
    ensures ReadChar(CharText(code)) == Some(code)
  {
    var t := HexByte(code);
    HexByteSpec(code);
    if !Printable(code) {
      forall i | 0 <= i < |t| ensures !NeedsEscape(t[i]) {
        if i >= 2 {
          assert IsDigitChar(t[i], 16);
        } else {
          assert t[i] == "0x"[i];
        }
      }
      EscapePlain(t);
    }
  }

  /** The text of a range label before escaping. */
  function RangeText(r: Range): string
  {
    CharText(r.start) + ":" + CharText(r.end)
  }

  /** Reads a range label back. */
  function ReadRange(t: string): Option<Range>
  {
    var n := if |t| > 0 && t[0] == '\'' then 3 else 4;
    if |t| > n && t[n] == ':' then
      var start :- ReadChar(t[..n]);
      var end :- ReadChar(t[n + 1..]);
      Some(Range(start, end))
    else None
  }

  lemma ReadRangeText(r: Range)
    ensures ReadRange(RangeText(r)) == Some(r)
  {
    BuildCharSpec(r.start);
    BuildCharSpec(r.end);
    HexByteSpec(r.start);
    var a := CharText(r.start);
    var t := RangeText(r);
    assert t[..|a|] == a && t[|a|] == ':' && t[|a| + 1..] == CharText(r.end);
  }

  /** Every byte is below 0x80, where UTF-8 decoding gives one character
      of the same code per byte. */
  predicate Ascii(bytes: seq<byte>)
  {
    forall i :: 0 <= i < |bytes| ==> bytes[i] < 0x80
  }

  /** `Buffer.toString()`, one character per byte of the same code, which
      is what UTF-8 decoding gives for ASCII bytes. */
  function DecodeText(bytes: seq<byte>): (s: string)
    ensures |s| == |bytes|
    ensures forall i :: 0 <= i < |s| ==> s[i] == CharOf(bytes[i])
  {
    seq(|bytes|, i requires 0 <= i < |bytes| => CharOf(bytes[i]))
  }

  /** The label of a byte-sequence edge: the text quoted in single quotes. */
  function BuildBuffer(bytes: seq<byte>): string
  {
    "'" + Escape(DecodeText(bytes)) + "'"
  }

  /** The unescaped text `BuildBuffer` stands for. */
  function BufferText(bytes: seq<byte>): string
  {
    "'" + DecodeText(bytes) + "'"
  }

  /** `t` begins and ends with a single quote. */
  predicate SingleQuoted(t: string)
  {
    |t| >= 2 && t[0] == '\'' && t[|t| - 1] == '\''
  }

  /** Reads a byte-sequence label back. */
  function ReadBuffer(t: string): Option<seq<byte>>
  {
    if SingleQuoted(t) && forall i :: 1 <= i < |t| - 1 ==> t[i] as int < 256 then
      Some(seq(|t| - 2, i requires 0 <= i < |t| - 2 => t[i + 1] as int as byte))
    else None
  }

  /** A byte-sequence label is the escaped form of its text, which is in
      single quotes whatever the bytes. */
  lemma BuildBufferSpec(bytes: seq<byte>)
    ensures BuildBuffer(bytes) == Escape(BufferText(bytes))
    ensures SingleQuoted(BufferText(bytes))
  {
    EscapeAppend("'" + DecodeText(bytes), "'");
    EscapeAppend("'", DecodeText(bytes));
  }

  /** The text of an ASCII byte sequence reads back as the bytes. */
  lemma BufferReadsBack(bytes: seq<byte>)
    requires Ascii(bytes)
    ensures ReadBuffer(BufferText(bytes)) == Some(bytes)
  {
    var t := BufferText(bytes);
    assert forall i :: 1 <= i < |t| - 1 ==> t[i] == CharOf(bytes[i - 1]);
    var back := seq(|t| - 2, i requires 0 <= i < |t| - 2 => t[i + 1] as int as byte);
    assert forall i :: 0 <= i < |bytes| ==> back[i] == bytes[i];
    assert back == bytes;
  }

  /** The label of an invocation edge. */
  function CodeText(code: int): string
  {
    "code: " + NumberText(code)
  }

  /** Reads an invocation label back. */
  function ReadCode(t: string): Option<int>
  {
    var digits :- Expect("code: ", t);
    Some(ParseNumber(digits))
  }

  lemma CodeTextSpec(code: int)
    ensures Escape(CodeText(code)) == CodeText(code)
    ensures ReadCode(CodeText(code)) == Some(code)
  {
    var t := CodeText(code);
    NumberRoundTrip(code);
    forall i | 0 <= i < |t| ensures !NeedsEscape(t[i]) {
      if i >= 6 {
        assert t[i] == NumberText(code)[i - 6];
      }
    }
    EscapePlain(t);
    assert t[6..] == NumberText(code);
  }
}
