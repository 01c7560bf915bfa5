/**
 Config values as text (`config_file.c`): how a value is escaped when it is written, and
 what the reader makes of a line. Text is a C string, so it contains no NUL. A character
 stands for the number the code compares: where C `char` is signed, a byte from 0x80 on is
 negative and equals none of the characters the code looks for, 0x85 included, and is some
 other character here. The results hold for all text and so for either kind of `char`.
 */
module ConfigText {
  import opened Common

  const BACKSPACE := '\U{08}'
  const VTAB := '\U{0B}'
  const FORMFEED := '\U{0C}'
  const NEL := '\U{85}'

  /** `git__isspace`. */
  predicate IsSpace(c: char) {
    c == ' ' || c == '\t' || c == '\n' || c == FORMFEED || c == '\r' || c == VTAB || c == NEL
  }

  // -------------------------------------------------------------- escaping

  const ESCAPES := "ntb\"\\"
  const ESCAPED := ['\n', '\t', BACKSPACE, '\"', '\\']

  /** `strchr`: the first index of `c`, or the length. */
  function IndexOf(s: string, c: char): (i: nat)
    ensures i <= |s|
    ensures i < |s| ==> s[i] == c
    ensures c !in s[..i]
  {
    if s == [] || s[0] == c then 0 else 1 + IndexOf(s[1..], c)
  }

  function EscapeChar(c: char): string {
    if c == '\n' then "\\n" else if c == '\t' then "\\t" else if c == BACKSPACE then "\\b"
    else if c == '\"' then "\\\"" else if c == '\\' then "\\\\" else [c]
  }

  /** Five characters are written with a backslash and a letter or themselves, every other one as it is. */
  lemma EscapedExactly(c: char)
    ensures EscapeChar('\n') == "\\n" && EscapeChar('\t') == "\\t" && EscapeChar(BACKSPACE) == "\\b"
    ensures EscapeChar('\"') == "\\\"" && EscapeChar('\\') == "\\\\"
    ensures |EscapeChar(c)| == 1 <==> c !in {'\n', '\t', BACKSPACE, '\"', '\\'}
    ensures |EscapeChar(c)| == 1 ==> EscapeChar(c) == [c]
  {
  }

  function Escape(v: string): string {
    if v == [] then [] else EscapeChar(v[0]) + Escape(v[1..])
  }

  /** The character a backslash and `c` stand for. */
  function UnescapeChar(c: char): Option<char> {
    if c == 'n' then Some('\n') else if c == 't' then Some('\t') else if c == 'b' then Some(BACKSPACE)
    else if c == '\"' then Some('\"') else if c == '\\' then Some('\\') else None
  }

  /** What `fixup_line` returns: quotes vanish, a backslash at the very end stays. */
  function Unescape(s: string): Option<string>
    decreases |s|
  {
    if s == [] then Some([])
    else if s[0] == '\"' then Unescape(s[1..])
    else if s[0] != '\\' then Prepend(s[0], Unescape(s[1..]))
    else if |s| == 1 then Some("\\")
    else match UnescapeChar(s[1])
      case None => None
      case Some(c) => Prepend(c, Unescape(s[2..]))
  }

  function Prepend(c: char, rest: Option<string>): Option<string> {
    match rest
    case None => None
    case Some(s) => Some([c] + s)
  }

  lemma {:induction false} UnescapeEscape(v: string)
    ensures Unescape(Escape(v)) == Some(v)
  {
    if v != [] {
      UnescapeEscape(v[1..]);
      UnescapeFirst(v[0], Escape(v[1..]));
      hide Unescape, EscapeChar;
      assert v == [v[0]] + v[1..];
    }
  }

  lemma UnescapeFirst(c: char, rest: string)
    ensures Unescape(EscapeChar(c) + rest) == Prepend(c, Unescape(rest))
  {
    var e := EscapeChar(c);
    var s := e + rest;
    assert s[0] == e[0] && s[|e|..] == rest;
    if |e| == 2 {
      assert s[1] == e[1] && UnescapeChar(e[1]) == Some(c);
    }
    hide EscapeChar;
  }

  lemma {:induction false} EscapeConcat(a: string, b: string)
    ensures Escape(a + b) == Escape(a) + Escape(b)
  {
    if a == [] {
      assert a + b == b;
    } else {
      assert (a + b)[1..] == a[1..] + b;
      EscapeConcat(a[1..], b);
    }
  }

  // ---------------------------------------------------------- continuation

  function TrailingBackslashes(s: string): (n: nat)
    ensures n <= |s|
  {
    if s == [] || s[|s| - 1] != '\\' then 0 else 1 + TrailingBackslashes(s[..|s| - 1])
  }

  /** `is_multiline_var`: an odd run of backslashes behind something else. */
  predicate IsContinued(s: string) {
    TrailingBackslashes(s) < |s| && TrailingBackslashes(s) % 2 == 1
  }

  lemma {:induction false} BackslashesConcat(a: string, b: string)
    ensures TrailingBackslashes(a + b) ==
            if TrailingBackslashes(b) == |b| then |b| + TrailingBackslashes(a) else TrailingBackslashes(b)
    decreases |b|
  {
    if b == [] {
      assert a + b == a;
    } else if b[|b| - 1] == '\\' {
      assert (a + b)[..|a + b| - 1] == a + b[..|b| - 1];
      BackslashesConcat(a, b[..|b| - 1]);
    }
  }

  /** Escaped text never ends in an odd run of backslashes. */
  lemma {:induction false} EscapedRunIsEven(v: string)
    ensures TrailingBackslashes(Escape(v)) % 2 == 0
  {
    hide EscapeChar;
    if v != [] {
      hide TrailingBackslashes;
      EscapedRunIsEven(v[1..]);
      BackslashesConcat(EscapeChar(v[0]), Escape(v[1..]));
      CharRunIsEven(v[0]);
    }
  }

  lemma CharRunIsEven(c: char)
    ensures TrailingBackslashes(EscapeChar(c)) % 2 == 0
  {
  }

  // --------------------------------------------------------------- reading

  function SkipSpace(s: string): string {
    if s != [] && IsSpace(s[0]) then SkipSpace(s[1..]) else s
  }

  function TrimRight(s: string): string {
    if s != [] && IsSpace(s[|s| - 1]) then TrimRight(s[..|s| - 1]) else s
  }

  /** `cfg_readline` on the text that is left: the line it returns. */
  function LineOf(text: string, skip: bool): string {
    var src := if skip then SkipSpace(text) else text;
    TrimRight(src[..IndexOf(src, '\n')])
  }

  /** What is left to read after that line. */
  function AfterLine(text: string, skip: bool): string {
    var src := if skip then SkipSpace(text) else text;
    var end := IndexOf(src, '\n');
    if end < |src| then src[end + 1..] else ""
  }

  /** The scan of `strip_comments` from `at`: where it stops and the quotes counted. */
  function Scan(line: string, at: nat, quotes: nat): (r: (nat, nat))
    requires at <= |line|
    ensures at <= r.0 <= |line|
    decreases |line| - at
  {
    if at == |line| then (at, quotes)
    else
      var q := if line[at] == '\"' && at > 0 && line[at - 1] != '\\' then quotes + 1 else quotes;
      if (line[at] == ';' || line[at] == '#') && q % 2 == 0 then (at, q) else Scan(line, at + 1, q)
  }

  /** `strip_comments`: cut at the comment, then one space off the end. */
  function Strip(line: string, inQuotes: nat): string {
    var end := Scan(line, 0, inQuotes).0;
    if end > 0 && IsSpace(line[end - 1]) then line[..end - 1] else line[..end]
  }

  /** Trailing space off, but never the first character. */
  function TrimName(s: string): string {
    if |s| > 1 && IsSpace(s[|s| - 1]) then TrimName(s[..|s| - 1]) else s
  }

  datatype Parsed =
    | Variable(name: string, value: Option<string>)  // None: no equals sign
    | Continued(name: string, first: string)         // the value goes on in the next line
    | BadEscape

  /** What `parse_variable` makes of a line already read and stripped. */
  function ParseLine(line: string): Parsed {
    var eq := IndexOf(line, '=');
    var name := TrimName(line[..eq]);
    if eq == |line| then Variable(name, None)
    else
      var value := SkipSpace(line[eq + 1..]);
      match Unescape(value)
      case None => BadEscape
      case Some(v) => if IsContinued(value) then Continued(name, v) else Variable(name, Some(v))
  }

  /** `parse_variable` on the text that is left. */
  function Parse(text: string): Parsed {
    ParseLine(Strip(LineOf(text, true), 0))
  }

  // ------------------------------------------------- the line that is written

  /** A variable name as the config code accepts it. */
  predicate IsName(name: string) {
    name != "" && forall c :: c in name ==> IsNameChar(c)
  }

  predicate IsNameChar(c: char) {
    'a' <= c <= 'z' || 'A' <= c <= 'Z' || '0' <= c <= '9' || c == '-'
  }

  /** The line as it is written: a tab, the name, an equals sign between spaces, the escaped value. */
  function Written(name: string, v: string): string {
    "\t" + name + " = " + Escape(v) + "\n"
  }

  /** White space that escaping leaves as it is. */
  predicate Soft(c: char) {
    IsSpace(c) && EscapeChar(c) == [c]
  }

  predicate StartsComment(c: char) {
    c == ';' || c == '#'
  }

  /** The index of the first `;` or `#` in a value, or its length. */
  function CommentAt(v: string): (k: nat)
    ensures k <= |v| && (k < |v| ==> StartsComment(v[k]))
    ensures forall i :: 0 <= i < k ==> !StartsComment(v[i])
  {
    if v == [] || StartsComment(v[0]) then 0 else 1 + CommentAt(v[1..])
  }

  function TrimSoftRight(v: string): (r: string)
    ensures r <= v
  {
    if v != [] && Soft(v[|v| - 1]) then TrimSoftRight(v[..|v| - 1]) else v
  }

  function TrimSoftLeft(v: string): (r: string)
    ensures |r| <= |v|
  {
    if v != [] && Soft(v[0]) then TrimSoftLeft(v[1..]) else v
  }

  /** The part of a value in front of what the reader cuts off at the end of the line. */
  function Kept(v: string): string {
    var k := CommentAt(v);
    if k == |v| then TrimSoftRight(v)
    else if k > 0 && Soft(v[k - 1]) then v[..k - 1]
    else v[..k]
  }

  /** The value that is read back. */
  function Survivor(v: string): string {
    TrimSoftLeft(Kept(v))
  }

  /** The values that come back as they were. */
  predicate Storable(v: string) {
    && (forall c :: c in v ==> !StartsComment(c))
    && (v != "" ==> !Soft(v[0]) && !Soft(v[|v| - 1]))
  }

  /** A value survives exactly when nothing of it is taken for a comment or for padding. */
  lemma SurvivesExactly(v: string)
    ensures Survivor(v) == v <==> Storable(v)
  {
  }

  // ------------------------------------------------------ reading it back

  lemma EscapedHasNoNewline(v: string)
    ensures '\n' !in Escape(v)
  {
  }

  lemma {:induction false} IndexOfConcat(a: string, b: string, c: char)
    requires c !in a
    ensures IndexOf(a + b, c) == |a| + IndexOf(b, c)
  {
    if a == [] {
      assert a + b == b;
    } else {
      assert (a + b)[1..] == a[1..] + b;
      assert c !in a[1..];
      IndexOfConcat(a[1..], b, c);
    }
  }

  lemma {:induction false} TrimRightConcat(a: string, b: string)
    ensures TrimRight(a + b) == if TrimRight(b) == [] then TrimRight(a) else a + TrimRight(b)
    decreases |b|
  {
    if b == [] {
      assert a + b == a;
    } else if IsSpace(b[|b| - 1]) {
      assert (a + b)[..|a + b| - 1] == a + b[..|b| - 1];
      TrimRightConcat(a, b[..|b| - 1]);
    }
  }

  lemma EscapeOne(c: char)
    ensures Escape([c]) == EscapeChar(c)
  {
  }

  lemma EndsInSpace(c: char)
    ensures var e := EscapeChar(c);
            && e != [] && (IsSpace(e[|e| - 1]) <==> Soft(c)) && (Soft(c) ==> e == [c])
  {
  }

  lemma LastOfEscape(v: string)
    requires v != []
    ensures Escape(v) == Escape(v[..|v| - 1]) + EscapeChar(v[|v| - 1])
  {
    hide EscapeChar;
    assert v == v[..|v| - 1] + [v[|v| - 1]];
    EscapeConcat(v[..|v| - 1], [v[|v| - 1]]);
    EscapeOne(v[|v| - 1]);
  }

  lemma {:induction false} TrimRightEscaped(v: string)
    ensures TrimRight(Escape(v)) == Escape(TrimSoftRight(v))
    decreases |v|
  {
    if v != [] {
      LastOfEscape(v);
      EndsInSpace(v[|v| - 1]);
      hide EscapeChar, Soft;
      if Soft(v[|v| - 1]) {
        var s := Escape(v);
        assert s[..|s| - 1] == Escape(v[..|v| - 1]);
        TrimRightEscaped(v[..|v| - 1]);
      }
    }
  }

  lemma {:induction false} SkipSpaceEscaped(v: string)
    ensures SkipSpace(Escape(v)) == Escape(TrimSoftLeft(v))
    decreases |v|
  {
    if v != [] && Soft(v[0]) {
      assert Escape(v)[1..] == Escape(v[1..]);
      SkipSpaceEscaped(v[1..]);
    }
  }

  /** One character, not a quote, or a backslash and something that starts no comment. */
  lemma EscapeShape(c: char)
    ensures var e := EscapeChar(c);
            if |e| == 1 then e[0] == c && c != '\"'
            else |e| == 2 && e[0] == '\\' && !StartsComment(e[1]) && !StartsComment(c)
  {
  }

  /** The comment scan goes through escaped text character by character, counting no quotes. */
  lemma {:induction false} ScanEscaped(pre: string, v: string)
    ensures Scan(pre + Escape(v), |pre|, 0) == (|pre| + |Escape(v[..CommentAt(v)])|, 0)
    decreases |v|
  {
    var line := pre + Escape(v);
    hide EscapeChar;
    if v == [] {
    } else if StartsComment(v[0]) {
      EscapeShape(v[0]);
      assert line[|pre|] == v[0];
      assert v[..0] == [];
    } else {
      var e, k := EscapeChar(v[0]), CommentAt(v);
      EscapeShape(v[0]);
      var pre' := pre + e;
      assert line == pre' + Escape(v[1..]);
      assert line[|pre|] == e[0];
      if |e| == 2 {
        assert line[|pre| + 1] == e[1];
      }
      ScanEscaped(pre', v[1..]);
      assert v[..k][1..] == v[1..][..k - 1];
      assert Escape(v[..k]) == e + Escape(v[1..][..k - 1]);
    }
  }

  /** The scan passes over text with no quote and no comment in it. */
  lemma {:induction false} ScanPlain(line: string, at: nat, stop: nat)
    requires at <= stop <= |line|
    requires forall i :: at <= i < stop ==> line[i] != '\"' && !StartsComment(line[i])
    ensures Scan(line, at, 0) == Scan(line, stop, 0)
    decreases stop - at
  {
    if at < stop {
      ScanPlain(line, at + 1, stop);
    }
  }

  lemma TrimNameOfName(name: string)
    requires IsName(name)
    ensures TrimName(name + " ") == name && '=' !in name + " " && '\n' !in name
  {
    assert (name + " ")[..|name|] == name;
    assert IsNameChar(name[|name| - 1]);
  }

  lemma ParseBare(name: string)
    requires IsName(name)
    ensures ParseLine(name + " =") == Variable(name, Some(""))
  {
    TrimNameOfName(name);
    var line := name + " =";
    assert line == name + " " + "=";
    IndexOfConcat(name + " ", "=", '=');
    assert line[..|name| + 1] == name + " ";
    assert line[|name| + 2..] == "";
  }

  lemma SkipSeparator(e: string)
    ensures SkipSpace(" " + e) == SkipSpace(e)
  {
    assert (" " + e)[1..] == e;
  }

  lemma EqualsAt(e: string)
    ensures IndexOf("= " + e, '=') == 0
  {
  }

  /** A line with a name and a value falls apart at its first equals sign. */
  lemma SplitAtEquals(name: string, e: string)
    requires IsName(name)
    ensures var line := name + " = " + e;
            IndexOf(line, '=') == |name| + 1 && TrimName(line[..|name| + 1]) == name && line[|name| + 2..] == " " + e
  {
    TrimNameOfName(name);
    hide IsName, TrimName, IndexOf;
    var line := name + " = " + e;
    assert line == name + " " + ("= " + e);
    IndexOfConcat(name + " ", "= " + e, '=');
    EqualsAt(e);
    assert line[..|name| + 1] == name + " ";
  }

  lemma ParsePadded(name: string, x: string)
    requires IsName(name)
    ensures ParseLine(name + " = " + Escape(x)) == Variable(name, Some(TrimSoftLeft(x)))
  {
    hide Unescape, Escape, IsName, TrimName, SkipSpace, TrimSoftLeft, TrailingBackslashes, IndexOf;
    SplitAtEquals(name, Escape(x));
    SkipSeparator(Escape(x));
    SkipSpaceEscaped(x);
    UnescapeEscape(TrimSoftLeft(x));
    EscapedRunIsEven(TrimSoftLeft(x));
  }

  /** A line with a name and the text of a value, as it may stand in a config file. */
  function ValueLine(name: string, e: string): string {
    "\t" + name + " = " + e + "\n"
  }

  lemma LineStarts(name: string, e: string, rest: string)
    requires IsName(name)
    ensures SkipSpace(ValueLine(name, e) + rest) == name + " = " + e + ("\n" + rest)
  {
    var src := name + " = " + e + ("\n" + rest);
    assert ValueLine(name, e) + rest == "\t" + src;
    assert ("\t" + src)[1..] == src;
    assert IsNameChar(name[0]) && src[0] == name[0];
  }

  /** The first line of a text that starts with such a line, and what comes after it. */
  lemma FirstValueLine(name: string, e: string, rest: string)
    requires IsName(name) && '\n' !in e
    ensures LineOf(ValueLine(name, e) + rest, true) == TrimRight(name + " = " + e)
    ensures AfterLine(ValueLine(name, e) + rest, true) == rest
  {
    hide ValueLine, TrimRight, SkipSpace, IsName, TrimName, IndexOf;
    TrimNameOfName(name);
    LineStarts(name, e, rest);
    assert '\n' !in name;
    FirstLine(name + " = " + e, rest);
  }

  /** The first line of a text that starts with a written one, and what comes after it. */
  lemma WrittenLine(name: string, v: string, rest: string)
    requires IsName(name)
    ensures LineOf(Written(name, v) + rest, true) == TrimRight(name + " = " + Escape(v))
    ensures AfterLine(Written(name, v) + rest, true) == rest
  {
    EscapedHasNoNewline(v);
    FirstValueLine(name, Escape(v), rest);
    hide TrimRight, LineOf, AfterLine;
    assert Written(name, v) == ValueLine(name, Escape(v));
  }

  lemma FirstLine(body: string, rest: string)
    requires '\n' !in body
    ensures var src := body + ("\n" + rest);
            IndexOf(src, '\n') == |body| && src[..|body|] == body && src[|body| + 1..] == rest
  {
    IndexOfConcat(body, "\n" + rest, '\n');
  }

  lemma LineOfWritten(name: string, v: string, rest: string)
    requires IsName(name)
    ensures LineOf(Written(name, v) + rest, true) ==
            if TrimSoftRight(v) == "" then name + " =" else name + " = " + Escape(TrimSoftRight(v))
  {
    WrittenLine(name, v, rest);
    TrimRightConcat(name + " = ", Escape(v));
    TrimRightEscaped(v);
    TrimBare(name);
    EscapeEmpty(TrimSoftRight(v));
    hide LineOf, Written, IsName;
  }

  lemma TrimBare(name: string)
    ensures TrimRight(name + " = ") == name + " ="
  {
  }

  lemma EscapeEmpty(v: string)
    ensures Escape(v) == "" <==> v == ""
  {
  }

  lemma StripBare(name: string)
    requires IsName(name)
    ensures Strip(name + " =", 0) == name + " ="
  {
    var line := name + " =";
    assert forall i :: 0 <= i < |name| ==> name[i] in name && line[i] == name[i];
    ScanPlain(line, 0, |line|);
    assert line[..|line|] == line;
  }

  lemma NameCharIsPlain(name: string, i: nat)
    requires IsName(name) && i < |name|
    ensures name[i] != '\"' && !StartsComment(name[i])
  {
    assert name[i] in name;
  }

  lemma ScanName(name: string, e: string)
    requires IsName(name)
    ensures var line := name + " = " + e; Scan(line, 0, 0) == Scan(line, |name| + 3, 0)
  {
    hide Scan, IsName;
    var line := name + " = " + e;
    forall i | 0 <= i < |name| + 3
      ensures line[i] != '\"' && !StartsComment(line[i])
    {
      if i < |name| {
        NameCharIsPlain(name, i);
        assert line[i] == name[i];
      } else {
        assert line[i] == " = "[i - |name|];
      }
    }
    ScanPlain(line, 0, |name| + 3);
  }

  lemma FrontOf(pre: string, a: string, b: string)
    ensures (pre + (a + b))[..|pre| + |a|] == pre + a
  {
  }

  /** Where the cut falls in an escaped value behind its name. */
  lemma ScanWritten(name: string, w: string)
    requires IsName(name)
    ensures var line := name + " = " + Escape(w);
            var cut := Escape(w[..CommentAt(w)]);
            && Scan(line, 0, 0).0 == |name| + 3 + |cut|
            && line[..|name| + 3 + |cut|] == name + " = " + cut
  {
    hide Scan, CommentAt, Escape, IsName;
    var pre, k := name + " = ", CommentAt(w);
    ScanName(name, Escape(w));
    ScanEscaped(pre, w);
    assert w[..k] + w[k..] == w;
    EscapeConcat(w[..k], w[k..]);
    FrontOf(pre, Escape(w[..k]), Escape(w[k..]));
  }

  lemma StripWritten(name: string, w: string)
    requires IsName(name) && (w != "" ==> !Soft(w[|w| - 1]))
    ensures var k := CommentAt(w);
            Strip(name + " = " + Escape(w), 0) ==
            if k == 0 then name + " ="
            else name + " = " + Escape(if Soft(w[k - 1]) then w[..k - 1] else w[..k])
  {
    hide Scan, CommentAt, IsName, Escape, Soft;
    ScanWritten(name, w);
    var k := CommentAt(w);
    var kept := name + " = " + Escape(w[..k]);
    if k == 0 {
      NothingKept(w);
      assert kept[..|kept| - 1] == name + " =" && kept[|kept| - 1] == ' ';
    } else {
      LastKept(name + " = ", w[..k]);
      assert w[..k][..k - 1] == w[..k - 1];
    }
  }

  lemma NothingKept(w: string)
    ensures Escape(w[..0]) == ""
  {
  }

  /** Taking a space off the end of escaped text takes a soft character off the value. */
  lemma LastKept(pre: string, x: string)
    requires x != ""
    ensures var line := pre + Escape(x);
            && line != "" && (IsSpace(line[|line| - 1]) <==> Soft(x[|x| - 1]))
            && (Soft(x[|x| - 1]) ==> line[..|line| - 1] == pre + Escape(x[..|x| - 1]))
  {
    LastOfEscape(x);
    EndsInSpace(x[|x| - 1]);
    hide EscapeChar, Soft, Escape;
    var front, e := Escape(x[..|x| - 1]), EscapeChar(x[|x| - 1]);
    var line := pre + (front + e);
    assert line[|line| - 1] == e[|e| - 1];
    if |e| == 1 {
      assert line[..|line| - 1] == pre + front;
    }
  }

  lemma {:induction false} CommentAtPrefix(v: string, j: nat)
    requires j <= |v|
    ensures CommentAt(v[..j]) == if j < CommentAt(v) then j else CommentAt(v)
  {
  }

  lemma {:induction false} TrimmedTail(v: string)
    ensures var w := TrimSoftRight(v);
            && (forall i :: |w| <= i < |v| ==> Soft(v[i]))
            && (w != "" ==> !Soft(w[|w| - 1]))
    decreases |v|
  {
    if v != [] && Soft(v[|v| - 1]) {
      TrimmedTail(v[..|v| - 1]);
    }
  }

  /** Trimming first, as reading the line does, cuts at the same place. */
  lemma KeptOfTrimmed(v: string)
    ensures var w := TrimSoftRight(v);
            var k := CommentAt(w);
            Kept(v) == if k == 0 then "" else if Soft(w[k - 1]) then w[..k - 1] else w[..k]
  {
    var w := TrimSoftRight(v);
    TrimmedTail(v);
    CommentAtPrefix(v, |w|);
    assert w == v[..|w|];
    if CommentAt(v) < |v| {
      CommentIsNotSoft(v[CommentAt(v)]);
    }
    hide TrimSoftRight, CommentAt, Soft;
  }

  lemma CommentIsNotSoft(c: char)
    requires StartsComment(c)
    ensures !Soft(c)
  {
  }

  lemma NothingToTrim()
    ensures TrimSoftLeft("") == "" && CommentAt("") == 0
  {
  }

  /**
   What `parse_variable` reads from the line `config_write` wrote, for every value and
   whatever follows the line.
   */
  lemma WrittenReadsBack(name: string, v: string, rest: string)
    requires IsName(name)
    ensures Parse(Written(name, v) + rest) == Variable(name, Some(Survivor(v)))
    ensures AfterLine(Written(name, v) + rest, true) == rest
  {
    hide TrimSoftRight, ParseLine, LineOf, AfterLine, Strip, IsName, Escape, Kept, Written, TrimRight;
    WrittenLine(name, v, rest);
    LineOfWritten(name, v, rest);
    KeptOfTrimmed(v);
    if TrimSoftRight(v) == "" {
      StripBare(name);
      ParseBare(name);
      hide CommentAt, TrimSoftLeft;
      NothingToTrim();
    } else {
      PaddedReadsBack(name, v);
    }
  }

  lemma PaddedReadsBack(name: string, v: string)
    requires IsName(name) && TrimSoftRight(v) != ""
    ensures ParseLine(Strip(name + " = " + Escape(TrimSoftRight(v)), 0)) == Variable(name, Some(Survivor(v)))
  {
    hide CommentAt, TrimSoftRight, TrimSoftLeft, Soft, ParseLine, Strip, IsName, Escape, Kept;
    var w := TrimSoftRight(v);
    TrimmedTail(v);
    KeptOfTrimmed(v);
    StripWritten(name, w);
    ParsePadded(name, Kept(v));
    ParseBare(name);
    NothingToTrim();
  }

  /** The round trip holds for exactly the storable values. */
  lemma RoundTripExactly(name: string, v: string, rest: string)
    requires IsName(name)
    ensures Parse(Written(name, v) + rest) == Variable(name, Some(v)) <==> Storable(v)
  {
    WrittenReadsBack(name, v, rest);
    SurvivesExactly(v);
  }

  /** A value that is lost: the reader takes it for a comment. */
  lemma CommentIsLost(name: string, rest: string)
    requires IsName(name)
    ensures Parse(Written(name, ";") + rest) == Variable(name, Some(""))
  {
    WrittenReadsBack(name, ";", rest);
  }

  // -------------------------------------------------- lines written by hand

  /** Text in which nothing has a meaning of its own. */
  predicate Plain(x: string) {
    forall c :: c in x ==> c != '\"' && c != '\\' && c != '\n'
  }

  lemma {:induction false} UnescapePlain(x: string, tail: string)
    requires Plain(x)
    ensures Unescape(x + tail) == match Unescape(tail) case None => None case Some(s) => Some(x + s)
  {
    if x == "" {
      assert x + tail == tail;
      if Unescape(tail).Some? {
        assert "" + Unescape(tail).value == Unescape(tail).value;
      }
    } else {
      assert x[0] in x;
      assert forall c :: c in x[1..] ==> c in x;
      UnescapePlain(x[1..], tail);
      assert (x + tail)[1..] == x[1..] + tail && (x + tail)[0] == x[0];
      if Unescape(tail).Some? {
        assert [x[0]] + (x[1..] + Unescape(tail).value) == x + Unescape(tail).value;
      }
    }
  }

  /** A plain quote is not part of the value. */
  lemma UnescapeQuoted(x: string)
    requires Plain(x)
    ensures Unescape("\"" + x + "\"") == Some(x)
  {
    var e := "\"" + x + "\"";
    UnescapePlain(x, "\"");
    assert e[1..] == x + "\"";
    assert "\""[1..] == "" && Unescape("\"") == Some("");
    assert x + "" == x;
  }

  /** Only five characters may follow a backslash; one at the very end stands for itself. */
  lemma UnescapeInvalid(x: string, c: char, y: string)
    requires Plain(x)
    ensures c !in {'n', 't', 'b', '\"', '\\'} ==> Unescape(x + ("\\" + [c] + y)) == None
    ensures Unescape(x + "\\") == Some(x + "\\")
  {
    UnescapePlain(x, "\\" + [c] + y);
    UnescapePlain(x, "\\");
  }

  /** A line nothing is cut off from: its value is un-escaped, or goes on in the next line. */
  lemma UncutReads(name: string, e: string, rest: string)
    requires IsName(name) && '\n' !in e && e != "" && !IsSpace(e[0]) && !IsSpace(e[|e| - 1])
    requires var line := name + " = " + e; Scan(line, |name| + 3, 0).0 == |line|
    ensures Parse(ValueLine(name, e) + rest) ==
            match Unescape(e)
            case None => BadEscape
            case Some(v) => if IsContinued(e) then Continued(name, v) else Variable(name, Some(v))
  {
    hide Unescape, IsContinued, Scan, IsName, TrimName, IndexOf, ValueLine;
    var line := name + " = " + e;
    FirstValueLine(name, e, rest);
    assert TrimRight(line) == line;
    ScanName(name, e);
    assert line[|line| - 1] == e[|e| - 1] && line[..|line|] == line;
    assert Strip(line, 0) == line;
    SplitAtEquals(name, e);
    assert (" " + e)[1..] == e;
    assert SkipSpace(" " + e) == e;
  }

  /** Inside quotes the scan passes over everything but a quote. */
  lemma {:induction false} ScanInQuotes(line: string, at: nat, stop: nat)
    requires at <= stop <= |line| && forall i :: at <= i < stop ==> line[i] != '\"'
    ensures Scan(line, at, 1) == Scan(line, stop, 1)
    decreases stop - at
  {
    if at < stop {
      ScanInQuotes(line, at + 1, stop);
    }
  }

  lemma ScanQuoted(pre: string, x: string)
    requires pre != "" && pre[|pre| - 1] == ' ' && Plain(x)
    ensures var line := pre + ("\"" + x + "\""); Scan(line, |pre|, 0) == (|line|, 2)
  {
    var line := pre + ("\"" + x + "\"");
    var close := |pre| + 1 + |x|;
    assert line[|pre|] == '\"' && line[|pre| - 1] == ' ' && line[close] == '\"';
    assert forall i :: 0 <= i < |x| ==> line[|pre| + 1 + i] == x[i] && x[i] in x;
    ScanInQuotes(line, |pre| + 1, close);
    assert line[close - 1] != '\\';
    assert close + 1 == |line| && Scan(line, |line|, 2) == (|line|, 2);
  }

  /**
   A value in quotes is read without them, with all its white space and comment characters,
   whatever follows the line.
   */
  lemma QuotedIsKept(name: string, x: string, rest: string)
    requires IsName(name) && Plain(x)
    ensures Parse(ValueLine(name, "\"" + x + "\"") + rest) == Variable(name, Some(x))
    ensures AfterLine(ValueLine(name, "\"" + x + "\"") + rest, true) == rest
  {
    var e := "\"" + x + "\"";
    ScanQuoted(name + " = ", x);
    UnescapeQuoted(x);
    hide Scan, Unescape, IsName;
    assert e[0] == '\"' && e[|e| - 1] == '\"';
    assert TrailingBackslashes(e) == 0;
    FirstValueLine(name, e, rest);
    UncutReads(name, e, rest);
  }

  /** A backslash at the end of a line makes the value go on in the next one. */
  lemma BackslashContinues(name: string, x: string, rest: string)
    requires IsName(name) && Plain(x) && x != "" && !IsSpace(x[0]) && forall c :: c in x ==> !StartsComment(c)
    ensures Parse(ValueLine(name, x + "\\") + rest) == Continued(name, x + "\\")
  {
    var e := x + "\\";
    hide Unescape, IsName, Scan, TrailingBackslashes;
    assert x[|x| - 1] in x;
    assert e[0] == x[0] && e[|e| - 1] == '\\' && '\n' !in e;
    ContinuedExactly(x, "\\");
    ScanUnquoted(name + " = ", x);
    UnescapeInvalid(x, 'n', "");
    UncutReads(name, e, rest);
  }

  lemma ScanUnquoted(pre: string, x: string)
    requires Plain(x) && forall c :: c in x ==> !StartsComment(c)
    ensures var line := pre + (x + "\\"); Scan(line, |pre|, 0).0 == |line|
  {
    var line := pre + (x + "\\");
    assert forall i :: 0 <= i < |x| ==> line[|pre| + i] == x[i] && x[i] in x;
    ScanPlain(line, |pre|, |line|);
  }

  /** `n` backslashes behind other text, or alone. */
  lemma ContinuedExactly(x: string, run: string)
    requires (forall i :: 0 <= i < |run| ==> run[i] == '\\') && (x != "" ==> x[|x| - 1] != '\\')
    ensures IsContinued(x + run) <==> x != "" && |run| % 2 == 1
  {
    BackslashRun(x, run);
  }

  lemma {:induction false} BackslashRun(x: string, run: string)
    requires (forall i :: 0 <= i < |run| ==> run[i] == '\\') && (x != "" ==> x[|x| - 1] != '\\')
    ensures TrailingBackslashes(x + run) == |run|
    decreases |run|
  {
    if run == "" {
      assert x + run == x;
    } else {
      assert (x + run)[..|x + run| - 1] == x + run[..|run| - 1];
      BackslashRun(x, run[..|run| - 1]);
    }
  }

  /** A name without an equals sign has no value at all. */
  lemma BareName(name: string, rest: string)
    requires IsName(name)
    ensures Parse("\t" + name + "\n" + rest) == Variable(name, None)
  {
    var text, src := "\t" + name + "\n" + rest, name + ("\n" + rest);
    assert text[1..] == src;
    assert forall i :: 0 <= i < |name| ==> name[i] in name;
    assert src[0] == name[0];
    assert SkipSpace(text) == src;
    FirstLine(name, rest);
    assert !IsSpace(name[|name| - 1]) && TrimRight(name) == name;
    ScanPlain(name, 0, |name|);
    assert name[..|name|] == name;
    assert Strip(name, 0) == name;
    IndexOfConcat(name, "", '=');
    assert name + "" == name && IndexOf("", '=') == 0;
    assert TrimName(name) == name;
  }

  /** All white space in front, or at the end, is left off, however much there is. */
  lemma {:induction false} SpaceInFront(pad: string, s: string)
    requires (forall i :: 0 <= i < |pad| ==> IsSpace(pad[i])) && (s != "" ==> !IsSpace(s[0]))
    ensures SkipSpace(pad + s) == s
    decreases |pad|
  {
    if pad == "" {
      assert pad + s == s;
    } else {
      assert (pad + s)[1..] == pad[1..] + s;
      SpaceInFront(pad[1..], s);
    }
  }

  lemma {:induction false} SpaceAtEnd(s: string, pad: string)
    requires (forall i :: 0 <= i < |pad| ==> IsSpace(pad[i])) && s != "" && !IsSpace(s[|s| - 1])
    ensures TrimRight(s + pad) == s && TrimName(s + pad) == s
    decreases |pad|
  {
    if pad == "" {
      assert s + pad == s;
    } else {
      assert (s + pad)[..|s + pad| - 1] == s + pad[..|pad| - 1];
      SpaceAtEnd(s, pad[..|pad| - 1]);
    }
  }

  lemma {:induction false} TrimKeepsFirst(c: char, s: string)
    requires !IsSpace(c)
    ensures TrimRight([c] + s) != "" && TrimRight([c] + s)[0] == c && TrimRight([c] + s) <= [c] + s
    decreases |s|
  {
    var t := [c] + s;
    if s != "" && IsSpace(t[|t| - 1]) {
      assert t[..|t| - 1] == [c] + s[..|s| - 1];
      TrimKeepsFirst(c, s[..|s| - 1]);
    }
  }

  /** What a comment is cut off from loses one white space character in front of it, and no more. */
  lemma CommentTakesOneSpace(name: string, x: string, c: string, rest: string)
    requires IsName(name) && Plain(x) && x != "" && !IsSpace(x[0]) && '\n' !in c
    requires forall i :: 0 <= i < |x| ==> !StartsComment(x[i])
    ensures Parse(ValueLine(name, x + " ;" + c) + rest) == Variable(name, Some(x))
    ensures Parse(ValueLine(name, x + "  ;" + c) + rest) == Variable(name, Some(x + " "))
  {
    CommentCut(name, x, c, rest);
    var y := x + " ";
    assert Plain(y) && y[0] == x[0];
    CommentCut(name, y, c, rest);
    assert x + "  ;" + c == y + " ;" + c;
  }

  lemma CommentCut(name: string, y: string, c: string, rest: string)
    requires IsName(name) && Plain(y) && y != "" && !IsSpace(y[0]) && '\n' !in c
    requires forall i :: 0 <= i < |y| ==> !StartsComment(y[i])
    ensures Parse(ValueLine(name, y + " ;" + c) + rest) == Variable(name, Some(y))
  {
    hide Scan, Unescape, IsName, TrimName, IndexOf, ValueLine, SkipSpace, TrimRight;
    var pre, e := name + " = " + y + " ", y + " ;" + c;
    var tail := TrimRight(";" + c);
    FirstValueLine(name, e, rest);
    assert name + " = " + e == pre + (";" + c);
    TrimRightConcat(pre, ";" + c);
    TrimKeepsFirst(';', c);
    StripAtComment(name, y, tail);
    SplitAtEquals(name, y);
    assert " " + y == (" " + y) && y + "" == y;
    SpaceInFront(" ", y);
    UnescapePlain(y, "");
    NothingToUnescape();
    PlainIsNotContinued(y);
  }

  lemma StripAtComment(name: string, y: string, tail: string)
    requires IsName(name) && Plain(y) && tail != "" && tail[0] == ';'
    requires forall i :: 0 <= i < |y| ==> !StartsComment(y[i])
    ensures Strip(name + " = " + y + " " + tail, 0) == name + " = " + y
  {
    hide Scan, IsName;
    var pre := name + " = ";
    ScanName(name, y + " " + tail);
    ScanToComment(pre, y, tail);
    var line := pre + (y + " " + tail);
    assert line == name + " = " + y + " " + tail;
    CutAt(pre + y, tail);
    assert line == pre + y + (" " + tail);
  }

  lemma CutAt(front: string, tail: string)
    ensures var line := front + (" " + tail); line[|front|] == ' ' && line[..|front|] == front
  {
  }

  lemma ScanToComment(pre: string, y: string, tail: string)
    requires Plain(y) && tail != "" && tail[0] == ';'
    requires forall i :: 0 <= i < |y| ==> !StartsComment(y[i])
    ensures var line := pre + (y + " " + tail); Scan(line, |pre|, 0) == (|pre| + |y| + 1, 0)
  {
    var line, stop := pre + (y + " " + tail), |pre| + |y| + 1;
    assert line[stop] == ';';
    forall i | |pre| <= i < stop
      ensures line[i] != '\"' && !StartsComment(line[i])
    {
      if i < stop - 1 {
        assert line[i] == y[i - |pre|] && y[i - |pre|] in y;
      } else {
        assert line[i] == ' ';
      }
    }
    hide Plain;
    ScanPlain(line, |pre|, stop);
  }

  lemma NothingToUnescape()
    ensures Unescape("") == Some("")
  {
  }

  lemma PlainIsNotContinued(y: string)
    requires Plain(y)
    ensures !IsContinued(y)
  {
    assert y != "" ==> y[|y| - 1] in y;
  }

  /** The white space that escaping leaves as it is, one character at a time. */
  lemma SoftExactly(c: char)
    ensures Soft(c) <==> c in {' ', '\r', VTAB, FORMFEED, NEL}
  {
  }
}
