/**
 The loops of `config_file.c` that write and read a variable's line, each proved equal to
 its description in `ConfigText`. Positions stand for pointers, the end of a text for NUL.
 */
module ConfigFile {
  import opened Common
  import opened ConfigText

  /** `escape_value`. */
  method EscapeValue(value: string) returns (buf: string)
    ensures buf == Escape(value)
  {
    hide EscapeChar, Escape;
    buf := "";
    assert value[0..] == value;
    var ptr := 0;
    while ptr < |value|
      invariant ptr <= |value|
      invariant buf + Escape(value[ptr..]) == Escape(value)
    {
      var esc := IndexOf(ESCAPED, value[ptr]);
      EscapeTable(value[ptr], esc);
      EscapeFirst(value, ptr);
      ghost var done := buf;
      if esc < |ESCAPED| {
        Regroup(buf, "\\", [ESCAPES[esc]]);
        buf := buf + "\\";
        buf := buf + [ESCAPES[esc]];
      } else {
        buf := buf + [value[ptr]];
      }
      assert buf == done + EscapeChar(value[ptr]);
      Regroup(done, EscapeChar(value[ptr]), Escape(value[ptr + 1..]));
      ptr := ptr + 1;
    }
    NothingToEscape();
    assert value[ptr..] == "";
  }

  lemma Regroup(a: string, b: string, c: string)
    ensures a + b + c == a + (b + c)
  {
  }

  lemma EscapeFirst(value: string, ptr: nat)
    requires ptr < |value|
    ensures Escape(value[ptr..]) == EscapeChar(value[ptr]) + Escape(value[ptr + 1..])
  {
    assert value[ptr..][1..] == value[ptr + 1..];
  }

  lemma NothingToEscape()
    ensures Escape("") == ""
  {
  }

  /** The two parallel tables say what `EscapeChar` says. */
  lemma EscapeTable(c: char, esc: nat)
    requires esc == IndexOf(ESCAPED, c)
    ensures EscapeChar(c) == if esc < |ESCAPED| then "\\" + [ESCAPES[esc]] else [c]
  {
    assert esc == |ESCAPED| ==> ESCAPED[..esc] == ESCAPED;
    assert c == ESCAPED[0] || c == ESCAPED[1] || c == ESCAPED[2] || c == ESCAPED[3] || c == ESCAPED[4] ==> c in ESCAPED;
  }

  lemma UnescapeTable(c: char, esc: nat)
    requires esc == IndexOf(ESCAPES, c)
    ensures UnescapeChar(c) == if esc < |ESCAPES| then Some(ESCAPED[esc]) else None
  {
  }

  /** What the whole text means, given the output so far and the text that is left. */
  ghost function Prefixed(done: string, rest: Option<string>): Option<string> {
    match rest
    case None => None
    case Some(s) => Some(done + s)
  }

  lemma PrefixedStep(done: string, c: char, rest: Option<string>)
    ensures Prefixed(done, Prepend(c, rest)) == Prefixed(done + [c], rest)
  {
    if rest.Some? {
      assert done + ([c] + rest.value) == done + [c] + rest.value;
    }
  }

  /** `fixup_line`; None is the invalid escape. */
  method FixupLine(line: string) returns (result: Option<string>)
    ensures result == Unescape(line)
  {
    hide UnescapeChar;
    var str := "";
    var ptr := 0;
    assert line[0..] == line;
    NothingPrefixed(Unescape(line));
    while ptr < |line|
      invariant ptr <= |line|
      invariant Unescape(line) == Prefixed(str, Unescape(line[ptr..]))
    {
      ghost var rest := line[ptr..];
      assert rest[1..] == line[ptr + 1..];
      if line[ptr] == '\"' {
      } else if line[ptr] != '\\' {
        PrefixedStep(str, line[ptr], Unescape(rest[1..]));
        str := str + [line[ptr]];
      } else {
        ptr := ptr + 1;
        if ptr == |line| {
          str := str + "\\";
          return Some(str);
        }
        assert rest[2..] == line[ptr + 1..];
        var esc := IndexOf(ESCAPES, line[ptr]);
        UnescapeTable(line[ptr], esc);
        if esc < |ESCAPES| {
          PrefixedStep(str, ESCAPED[esc], Unescape(rest[2..]));
          str := str + [ESCAPED[esc]];
        } else {
          return None;
        }
      }
      ptr := ptr + 1;
    }
    assert line[ptr..] == "";
    assert str + "" == str;
    result := Some(str);
  }

  lemma NothingPrefixed(rest: Option<string>)
    ensures Prefixed("", rest) == rest
  {
    if rest.Some? {
      assert "" + rest.value == rest.value;
    }
  }

  /** `is_multiline_var`. */
  method IsMultilineVar(str: string) returns (yes: bool)
    ensures yes == IsContinued(str)
  {
    var count := 0;
    var end := |str|;
    assert str[..end] == str;
    while end > 0 && str[end - 1] == '\\'
      invariant 0 <= end <= |str| && count == |str| - end
      invariant TrailingBackslashes(str) == count + TrailingBackslashes(str[..end])
    {
      assert str[..end][..end - 1] == str[..end - 1];
      count := count + 1;
      end := end - 1;
    }
    yes := end > 0 && count % 2 == 1;
  }

  /** `strip_comments`: truncates the line and counts its quotes. */
  method StripComments(line: string, inQuotes: nat) returns (stripped: string, quoteCount: nat)
    ensures stripped == Strip(line, inQuotes)
    ensures quoteCount == Scan(line, 0, inQuotes).1
  {
    quoteCount := inQuotes;
    var ptr := 0;
    while ptr < |line|
      invariant ptr <= |line|
      invariant Scan(line, ptr, quoteCount) == Scan(line, 0, inQuotes)
    {
      if line[ptr] == '\"' && ptr > 0 && line[ptr - 1] != '\\' {
        quoteCount := quoteCount + 1;
      }
      if (line[ptr] == ';' || line[ptr] == '#') && quoteCount % 2 == 0 {
        break;
      }
      ptr := ptr + 1;
    }
    if ptr > 0 && IsSpace(line[ptr - 1]) {
      ptr := ptr - 1;
    }
    stripped := line[..ptr];
  }

  /** The reader part of `diskfile_backend`. */
  class Reader {
    const buffer: string
    var readPtr: nat
    var eof: bool
    var lineNumber: nat

    ghost predicate Valid()
      reads this
    {
      readPtr <= |buffer|
    }

    /** What is still to be read. */
    ghost function Rest(): string
      requires Valid()
      reads this
    {
      buffer[readPtr..]
    }

    constructor (buffer: string)
      ensures Valid() && Rest() == buffer && !eof && lineNumber == 0
    {
      this.buffer, readPtr, eof, lineNumber := buffer, 0, false, 0;
    }

    /** `cfg_readline`: the next line without its trailing space; moves behind its newline. */
    method CfgReadline(skipWhitespace: bool) returns (line: string)
      requires Valid()
      modifies this
      ensures Valid() && line == LineOf(old(Rest()), skipWhitespace)
      ensures Rest() == AfterLine(old(Rest()), skipWhitespace)
      ensures eof == (old(eof) || Rest() == "") && lineNumber == old(lineNumber) + 1
    {
      var lineSrc := LineStart(skipWhitespace);
      ghost var src := buffer[lineSrc..];
      var lineLen := IndexOf(buffer[lineSrc..], '\n');
      var lineEnd := lineSrc + lineLen;
      line := TrimLine(buffer[lineSrc..lineEnd]);
      assert buffer[lineSrc..lineEnd] == src[..lineLen];
      if lineEnd < |buffer| {
        lineEnd := lineEnd + 1;
        assert buffer[lineEnd..] == src[lineLen + 1..];
      }
      if lineEnd == |buffer| {
        eof := true;
      }
      lineNumber := lineNumber + 1;
      readPtr := lineEnd;
    }

    /** Where the line starts: behind leading white space if that is to be skipped. */
    method LineStart(skipWhitespace: bool) returns (lineSrc: nat)
      requires Valid()
      ensures readPtr <= lineSrc <= |buffer|
      ensures buffer[lineSrc..] == if skipWhitespace then SkipSpace(Rest()) else Rest()
    {
      lineSrc := readPtr;
      if skipWhitespace {
        while lineSrc < |buffer| && IsSpace(buffer[lineSrc])
          invariant readPtr <= lineSrc <= |buffer|
          invariant SkipSpace(buffer[lineSrc..]) == SkipSpace(Rest())
        {
          assert buffer[lineSrc..][1..] == buffer[lineSrc + 1..];
          lineSrc := lineSrc + 1;
        }
      }
    }

    /** `parse_variable`, up to the point where a continued value needs the next line. */
    method ParseVariable() returns (parsed: Parsed)
      requires Valid()
      modifies this
      ensures Valid() && parsed == Parse(old(Rest())) && Rest() == AfterLine(old(Rest()), true)
    {
      hide LineOf, AfterLine, Strip, Unescape, IsContinued;
      var line := CfgReadline(true);
      var quoteCount;
      line, quoteCount := StripComments(line, 0);
      var varEnd := IndexOf(line, '=');
      var name := NameBefore(line[..varEnd]);
      if varEnd == |line| {
        return Variable(name, None);
      }
      var valueStart := SkipLeading(line[varEnd + 1..]);
      var procLine := FixupLine(valueStart);
      if procLine.None? {
        return BadEscape;
      }
      var multiline := IsMultilineVar(valueStart);
      if multiline {
        return Continued(name, procLine.value);
      }
      return Variable(name, procLine);
    }
  }

  /** Ends the line in front of its trailing white space. */
  method TrimLine(s: string) returns (line: string)
    ensures line == TrimRight(s)
  {
    line := s;
    while line != "" && IsSpace(line[|line| - 1])
      invariant TrimRight(line) == TrimRight(s)
      decreases |line|
    {
      line := line[..|line| - 1];
    }
  }

  /** The name in front of the equals sign, its trailing white space left off. */
  method NameBefore(s: string) returns (name: string)
    ensures name == TrimName(s)
  {
    name := s;
    while |name| > 1 && IsSpace(name[|name| - 1])
      invariant TrimName(name) == TrimName(s)
      decreases |name|
    {
      name := name[..|name| - 1];
    }
  }

  /** Steps over the white space in front of a value. */
  method SkipLeading(s: string) returns (rest: string)
    ensures rest == SkipSpace(s)
  {
    rest := s;
    while rest != "" && IsSpace(rest[0])
      invariant SkipSpace(rest) == SkipSpace(s)
      decreases |rest|
    {
      rest := rest[1..];
    }
  }

  /** Writing a value in front of other text and reading the line again. */
  method WriteThenRead(name: string, value: string, rest: string) returns (parsed: Parsed, left: string)
    requires IsName(name)
    ensures parsed == Variable(name, Some(Survivor(value))) && left == rest
    ensures parsed == Variable(name, Some(value)) <==> Storable(value)
  {
    hide Parse, AfterLine, Survivor, Storable, IsName, Escape;
    var escaped := EscapeValue(value);
    var reader := new Reader("\t" + name + " = " + escaped + "\n" + rest);
    WrittenReadsBack(name, value, rest);
    RoundTripExactly(name, value, rest);
    parsed := reader.ParseVariable();
    left := reader.buffer[reader.readPtr..];
  }
}
