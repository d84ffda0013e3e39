/** The mount table: kernel octal escapes and the line format around them. */
module Mounts {
  import opened Common

  datatype MountInfo = MountInfo(source: string, target: string, fstype: string, options: string)

  /** Unicode White_Space, which field splitting goes by. */
  predicate IsWhitespace(c: char) {
    var n := c as int;
    || 0x09 <= n <= 0x0D || n == 0x20 || n == 0x85 || n == 0xA0 || n == 0x1680
    || 0x2000 <= n <= 0x200A || n == 0x2028 || n == 0x2029 || n == 0x202F || n == 0x205F || n == 0x3000
  }

  /** Besides the ASCII ones, whitespace is the next line, the no-break spaces and the Unicode separators. */
  lemma WhitespaceIs(c: char)
    ensures c as int < 128 ==> (IsWhitespace(c) <==> c in {'\t', '\n', '\U{B}', '\U{C}', '\r', ' '})
    ensures IsWhitespace('\U{85}') && IsWhitespace('\U{A0}') && IsWhitespace('\U{1680}') && IsWhitespace('\U{3000}')
    ensures 0x2000 <= c as int <= 0x206F ==>
      (IsWhitespace(c) <==> c as int <= 0x200A || c in {'\U{2028}', '\U{2029}', '\U{202F}', '\U{205F}'})
  {
  }

  ghost predicate NoWhitespace(s: string) {
    forall i :: 0 <= i < |s| ==> !IsWhitespace(s[i])
  }

  predicate IsOctal(c: char) {
    '0' <= c <= '7'
  }

  function OctalValue(c: char): (v: nat)
    requires IsOctal(c)
    ensures v < 8
  {
    c as int - '0' as int
  }

  /** Three characters read as a base-8 byte: a leading plus is accepted, overflow is not. */
  function ParseByte(a: char, b: char, c: char): (r: Option<nat>)
    ensures r.Some? ==> r.value < 256
  {
    if !IsOctal(b) || !IsOctal(c) then None
    else if a == '+' then Some(8 * OctalValue(b) + OctalValue(c))
    else if '0' <= a <= '3' then Some(64 * OctalValue(a) + 8 * OctalValue(b) + OctalValue(c))
    else None
  }

  predicate StartsEscape(s: string) {
    |s| > 3 && s[0] == '\\' && ParseByte(s[1], s[2], s[3]).Some?
  }

  function Unescaped(s: string): string {
    if s == [] then []
    else if StartsEscape(s) then [ParseByte(s[1], s[2], s[3]).value as char] + Unescaped(s[4..])
    else [s[0]] + Unescaped(s[1..])
  }

  lemma {:induction false} NothingToUnescape(s: string)
    requires '\\' !in s
    ensures Unescaped(s) == s
  {
    if s != [] {
      NothingToUnescape(s[1..]);
    }
  }

  /** An escape is a backslash, a digit up to 3 or a plus sign, and two more octal digits. */
  lemma EscapeReads(s: string)
    ensures StartsEscape(s) <==>
      |s| > 3 && s[0] == '\\' && s[1] in {'0', '1', '2', '3', '+'} && '0' <= s[2] <= '7' && '0' <= s[3] <= '7'
    ensures StartsEscape(s) ==>
      ParseByte(s[1], s[2], s[3]).value ==
      (if s[1] == '+' then 0 else 64 * (s[1] as int - '0' as int))
      + 8 * (s[2] as int - '0' as int) + (s[3] as int - '0' as int)
  {
  }

  /** Somewhere in the text stands something read as an escape. */
  ghost predicate HoldsEscape(s: string) {
    exists i :: 0 <= i <= |s| && StartsEscape(s[i..])
  }

  lemma {:induction false} UnescapedIsShorter(s: string)
    ensures |Unescaped(s)| <= |s|
    ensures HoldsEscape(s) ==> |Unescaped(s)| < |s|
  {
    if StartsEscape(s) {
      UnescapedIsShorter(s[4..]);
    } else if s != [] {
      UnescapedIsShorter(s[1..]);
      if HoldsEscape(s) {
        var i :| 0 <= i <= |s| && StartsEscape(s[i..]);
        assert s[0..] == s && s[1..][i - 1..] == s[i..];
      }
    }
  }

  lemma EscapeInTail(s: string)
    requires s != []
    ensures StartsEscape(s) || HoldsEscape(s[1..]) ==> HoldsEscape(s)
  {
    assert s[0..] == s;
    if HoldsEscape(s[1..]) {
      var i :| 0 <= i <= |s[1..]| && StartsEscape(s[1..][i..]);
      assert s[1..][i..] == s[i + 1..];
    }
  }

  /** Decoding leaves a text alone exactly when nothing in it reads as an escape. */
  lemma {:induction false} UnescapedAlone(s: string)
    ensures Unescaped(s) == s <==> !HoldsEscape(s)
  {
    UnescapedIsShorter(s);
    if s != [] && !HoldsEscape(s) {
      EscapeInTail(s);
      UnescapedAlone(s[1..]);
    }
  }

  /** The four characters from a position on are read as an escape. */
  predicate EscapeAt(value: string, i: nat)
    requires i < |value|
  {
    value[i] == '\\' && i + 3 < |value| && ParseByte(value[i + 1], value[i + 2], value[i + 3]).Some?
  }

  /** What decoding makes of the text from a position on. */
  function UnescapedFrom(value: string, i: nat): string
    requires i <= |value|
  {
    Unescaped(value[i..])
  }

  lemma UnescapedStep(value: string, i: nat)
    requires i < |value|
    ensures if EscapeAt(value, i)
      then UnescapedFrom(value, i) ==
        [ParseByte(value[i + 1], value[i + 2], value[i + 3]).value as char] + UnescapedFrom(value, i + 4)
      else UnescapedFrom(value, i) == [value[i]] + UnescapedFrom(value, i + 1)
  {
    hide ParseByte;
    var rest := value[i..];
    assert rest[1..] == value[i + 1..];
    if StartsEscape(rest) {
      assert rest[4..] == value[i + 4..];
    }
  }

  lemma UnescapedEnds(value: string)
    ensures UnescapedFrom(value, 0) == Unescaped(value) && UnescapedFrom(value, |value|) == []
  {
    assert value[0..] == value;
  }

  lemma AppendThenRest(out: string, c: char, rest: string)
    ensures out + ([c] + rest) == (out + [c]) + rest
  {
  }

  method UnescapeMountField(value: string) returns (out: string)
    ensures out == Unescaped(value)
  {
    if '\\' !in value {
      NothingToUnescape(value);
      return value;
    }
    UnescapedEnds(value);
    hide ParseByte, Unescaped, UnescapedFrom, StartsEscape;
    out := [];
    var index := 0;
    while index < |value|
      invariant index <= |value|
      invariant out + UnescapedFrom(value, index) == Unescaped(value)
    {
      UnescapedStep(value, index);
      if value[index] == '\\' && index + 3 < |value| {
        var byte := ParseByte(value[index + 1], value[index + 2], value[index + 3]);
        if byte.Some? {
          AppendThenRest(out, byte.value as char, UnescapedFrom(value, index + 4));
          out := out + [byte.value as char];
          index := index + 4;
          continue;
        }
      }
      AppendThenRest(out, value[index], UnescapedFrom(value, index + 1));
      out := out + [value[index]];
      index := index + 1;
    }
  }

  // ----- the kernel's side: escaping a chosen set of characters

  /** Sets a kernel may escape: single-byte characters, the backslash among them. */
  ghost predicate EscapeSet(escapes: set<char>) {
    '\\' in escapes && forall c :: c in escapes ==> SingleByte(c)
  }

  predicate SingleByte(c: char) {
    c as int < 256
  }

  function OctalChar(v: nat): char
    requires v < 8
  {
    ('0' as int + v) as char
  }

  function EscapedChar(c: char): string
    requires SingleByte(c)
  {
    var n := c as int;
    ['\\', OctalChar(n / 64), OctalChar(n / 8 % 8), OctalChar(n % 8)]
  }

  function Escaped(escapes: set<char>, s: string): string
    requires EscapeSet(escapes)
  {
    if s == [] then []
    else (if s[0] in escapes then EscapedChar(s[0]) else [s[0]]) + Escaped(escapes, s[1..])
  }

  lemma EscapedCharParses(c: char)
    requires SingleByte(c)
    ensures var e := EscapedChar(c); ParseByte(e[1], e[2], e[3]) == Some(c as int)
    ensures NoWhitespace(EscapedChar(c))
  {
    var n := c as int;
    assert n == 64 * (n / 64) + 8 * (n / 8 % 8) + n % 8;
  }

  /** Unescaping inverts escaping, for every field. */
  lemma {:induction false} UnescapeInvertsEscape(escapes: set<char>, s: string)
    requires EscapeSet(escapes)
    ensures Unescaped(Escaped(escapes, s)) == s
  {
    if s != [] {
      UnescapeInvertsEscape(escapes, s[1..]);
      var t := Escaped(escapes, s);
      if s[0] in escapes {
        EscapedCharParses(s[0]);
        assert t[..4] == EscapedChar(s[0]) && t[4..] == Escaped(escapes, s[1..]);
        assert t[0] == '\\' && StartsEscape(t);
      } else {
        assert t[1..] == Escaped(escapes, s[1..]);
      }
    }
  }

  // ----- lines and fields

  function FindChar(s: string, c: char): (n: nat)
    ensures n <= |s| && (forall i :: 0 <= i < n ==> s[i] != c) && (n < |s| ==> s[n] == c)
  {
    if s == [] || s[0] == c then 0 else 1 + FindChar(s[1..], c)
  }

  function StripCarriageReturn(line: string): string {
    if line != [] && line[|line| - 1] == '\r' then line[..|line| - 1] else line
  }

  function Lines(text: string): seq<string> {
    if text == [] then []
    else
      var n := FindChar(text, '\n');
      if n == |text| then [text] else [StripCarriageReturn(text[..n])] + Lines(text[n + 1..])
  }

  /** Length of the leading run without whitespace. */
  function Run(s: string): (n: nat)
    ensures n <= |s| && NoWhitespace(s[..n]) && (n < |s| ==> IsWhitespace(s[n]))
  {
    if s == [] || IsWhitespace(s[0]) then 0
    else
      var n := Run(s[1..]);
      assert s[..n + 1] == [s[0]] + s[1..][..n];
      n + 1
  }

  function Fields(s: string): (fields: seq<string>)
    ensures forall i :: 0 <= i < |fields| ==> fields[i] != [] && NoWhitespace(fields[i])
  {
    if s == [] then []
    else if IsWhitespace(s[0]) then Fields(s[1..])
    else [s[..Run(s)]] + Fields(s[Run(s)..])
  }

  function ParseLine(line: string): Option<MountInfo> {
    var fields := Fields(line);
    if |fields| < 3 then None
    else Some(MountInfo(Unescaped(fields[0]), Unescaped(fields[1]), fields[2],
                        if |fields| > 3 then fields[3] else ""))
  }

  function ParseLines(lines: seq<string>): (ms: seq<MountInfo>)
    ensures |ms| <= |lines|
  {
    if lines == [] then []
    else
      var rest := ParseLines(lines[1..]);
      match ParseLine(lines[0])
      case Some(m) => [m] + rest
      case None => rest
  }

  function ParseMounts(text: string): seq<MountInfo> {
    ParseLines(Lines(text))
  }

  // ----- what the kernel prints

  function LineOf(escapes: set<char>, m: MountInfo): string
    requires EscapeSet(escapes)
  {
    Escaped(escapes, m.source) + " " + (Escaped(escapes, m.target) + " " +
    (Escaped(escapes, m.fstype) + " " + (Escaped(escapes, m.options) + " 0 0")))
  }

  function Rendered(escapes: set<char>, ms: seq<MountInfo>): string
    requires EscapeSet(escapes)
  {
    if ms == [] then [] else LineOf(escapes, ms[0]) + "\n" + Rendered(escapes, ms[1..])
  }

  /** A path field that survives: something there, and no whitespace the kernel leaves unescaped. */
  ghost predicate SafePath(escapes: set<char>, s: string) {
    s != [] && forall i :: 0 <= i < |s| && IsWhitespace(s[i]) ==> s[i] in escapes
  }

  /** A field that is not unescaped survives only if nothing in it needs escaping. */
  ghost predicate SafePlain(escapes: set<char>, s: string) {
    s != [] && forall i :: 0 <= i < |s| ==> !IsWhitespace(s[i]) && s[i] !in escapes
  }

  ghost predicate Recoverable(escapes: set<char>, m: MountInfo) {
    && SafePath(escapes, m.source) && SafePath(escapes, m.target)
    && SafePlain(escapes, m.fstype) && SafePlain(escapes, m.options)
  }

  // ----- escaped text

  predicate IsEscapeOf(s: string, c: char) {
    SingleByte(c) && s == EscapedChar(c)
  }

  /** Every backslash starts the escape of an escapable character. */
  ghost predicate WellEscaped(escapes: set<char>, s: string) {
    s == [] ||
    if s[0] == '\\'
    then |s| > 3 && (exists c :: c in escapes && IsEscapeOf(s[..4], c)) && WellEscaped(escapes, s[4..])
    else WellEscaped(escapes, s[1..])
  }

  lemma {:induction false} EscapedIsWellEscaped(escapes: set<char>, s: string)
    requires EscapeSet(escapes)
    ensures WellEscaped(escapes, Escaped(escapes, s))
    ensures |Escaped(escapes, s)| >= |s|
    ensures |Escaped(escapes, s)| == |s| ==> forall i :: 0 <= i < |s| ==> s[i] !in escapes
  {
    if s != [] {
      EscapedIsWellEscaped(escapes, s[1..]);
      var t := Escaped(escapes, s);
      if s[0] in escapes {
        assert t[..4] == EscapedChar(s[0]) && t[4..] == Escaped(escapes, s[1..]);
      } else {
        assert t[1..] == Escaped(escapes, s[1..]);
      }
    }
  }

  lemma {:induction false} WellEscapedConcat(escapes: set<char>, a: string, b: string)
    requires WellEscaped(escapes, a) && WellEscaped(escapes, b)
    ensures WellEscaped(escapes, a + b)
  {
    if a == [] {
      assert a + b == b;
    } else if a[0] == '\\' {
      assert (a + b)[..4] == a[..4] && (a + b)[4..] == a[4..] + b;
      WellEscapedConcat(escapes, a[4..], b);
    } else {
      assert (a + b)[1..] == a[1..] + b;
      WellEscapedConcat(escapes, a[1..], b);
    }
  }

  /** Splitting at whitespace never cuts an escape. */
  lemma {:induction false} SplitWellEscaped(escapes: set<char>, s: string)
    requires WellEscaped(escapes, s)
    ensures WellEscaped(escapes, s[..Run(s)]) && WellEscaped(escapes, s[Run(s)..])
  {
    if s != [] && !IsWhitespace(s[0]) {
      if s[0] == '\\' {
        EscapeRuns(escapes, s);
        SplitWellEscaped(escapes, s[4..]);
        hide Run, IsWhitespace, IsEscapeOf;
        var t := s[..Run(s)];
        assert t[..4] == s[..4] && t[4..] == s[4..][..Run(s[4..])];
        assert s[Run(s)..] == s[4..][Run(s[4..])..];
      } else {
        SplitWellEscaped(escapes, s[1..]);
        assert s[..Run(s)][1..] == s[1..][..Run(s[1..])];
        assert s[Run(s)..] == s[1..][Run(s[1..])..];
      }
    }
  }

  lemma EscapeRuns(escapes: set<char>, s: string)
    requires WellEscaped(escapes, s) && s != [] && s[0] == '\\'
    ensures Run(s) == 4 + Run(s[4..])
  {
    var c :| c in escapes && IsEscapeOf(s[..4], c);
    EscapedCharParses(c);
    RunPrefix(s[..4], s[4..]);
    assert s == s[..4] + s[4..];
  }

  lemma {:induction false} RunPrefix(a: string, b: string)
    requires NoWhitespace(a)
    ensures Run(a + b) == |a| + Run(b)
  {
    if a == [] {
      assert a + b == b;
    } else {
      assert (a + b)[1..] == a[1..] + b;
      RunPrefix(a[1..], b);
    }
  }

  lemma {:induction false} FieldsWellEscaped(escapes: set<char>, s: string)
    requires WellEscaped(escapes, s)
    ensures forall i :: 0 <= i < |Fields(s)| ==> WellEscaped(escapes, Fields(s)[i])
    decreases |s|
  {
    if s != [] {
      if IsWhitespace(s[0]) {
        FieldsWellEscaped(escapes, s[1..]);
      } else {
        SplitWellEscaped(escapes, s);
        FieldsWellEscaped(escapes, s[Run(s)..]);
      }
    }
  }

  /** Decoding a whitespace-free field yields only whitespace the kernel escapes. */
  lemma {:induction false} DecodedIsSafe(escapes: set<char>, s: string)
    requires WellEscaped(escapes, s) && NoWhitespace(s) && s != []
    ensures SafePath(escapes, Unescaped(s))
  {
    if s[0] == '\\' {
      var c :| c in escapes && IsEscapeOf(s[..4], c);
      EscapedCharParses(c);
      assert forall i :: 0 <= i < 4 ==> s[i] == s[..4][i];
      assert Unescaped(s) == [c] + Unescaped(s[4..]);
      if s[4..] != [] {
        DecodedIsSafe(escapes, s[4..]);
      }
    } else {
      assert Unescaped(s) == [s[0]] + Unescaped(s[1..]);
      if s[1..] != [] {
        DecodedIsSafe(escapes, s[1..]);
      }
    }
  }

  lemma {:induction false} EscapedNoWhitespace(escapes: set<char>, s: string)
    requires EscapeSet(escapes) && SafePath(escapes, s)
    ensures NoWhitespace(Escaped(escapes, s)) && Escaped(escapes, s) != []
  {
    if s[0] in escapes {
      EscapedCharParses(s[0]);
    }
    if s[1..] != [] {
      EscapedNoWhitespace(escapes, s[1..]);
    }
  }

  lemma {:induction false} NothingToEscape(escapes: set<char>, s: string)
    requires EscapeSet(escapes)
    requires forall i :: 0 <= i < |s| ==> s[i] !in escapes
    ensures Escaped(escapes, s) == s
  {
    if s != [] {
      NothingToEscape(escapes, s[1..]);
    }
  }

  lemma FirstField(a: string, rest: string)
    requires a != [] && NoWhitespace(a)
    ensures Fields(a + " " + rest) == [a] + Fields(rest)
  {
    var s := a + " " + rest;
    assert s == a + (" " + rest);
    assert Run(" " + rest) == 0;
    RunPrefix(a, " " + rest);
    assert s[0] == a[0];
    assert s[..|a|] == a && s[|a|..] == " " + rest;
    assert (" " + rest)[1..] == rest;
  }

  /** A field that stands for itself. */
  ghost predicate IsWord(s: string) {
    s != [] && NoWhitespace(s) && '\\' !in s
  }

  lemma OneField(a: string)
    requires a != [] && NoWhitespace(a)
    ensures Fields(a) == [a]
  {
    RunPrefix(a, "");
    assert a + "" == a && a[..|a|] == a && a[|a|..] == "";
  }

  /** Two fields are no entry, three are one without options, and from the fifth on fields are ignored. */
  lemma FieldsOfAnEntry(a: string, b: string, c: string, d: string, rest: string)
    requires IsWord(a) && IsWord(b) && IsWord(c) && IsWord(d)
    ensures ParseLine(a + " " + b) == None
    ensures ParseLine(a + " " + (b + " " + c)) == Some(MountInfo(a, b, c, ""))
    ensures ParseLine(a + " " + (b + " " + (c + " " + (d + " " + rest)))) == Some(MountInfo(a, b, c, d))
  {
    OneField(b);
    OneField(c);
    FirstField(a, b);
    FirstField(b, c);
    FirstField(a, b + " " + c);
    FirstField(d, rest);
    FirstField(c, d + " " + rest);
    FirstField(b, c + " " + (d + " " + rest));
    FirstField(a, b + " " + (c + " " + (d + " " + rest)));
    NothingToUnescape(a);
    NothingToUnescape(b);
  }

  // ----- one line

  lemma LineRecovered(escapes: set<char>, m: MountInfo)
    requires EscapeSet(escapes) && Recoverable(escapes, m)
    ensures ParseLine(LineOf(escapes, m)) == Some(m)
  {
    var tail := Escaped(escapes, m.options) + " 0 0";
    assert tail == Escaped(escapes, m.options) + " " + "0 0";
    EscapedNoWhitespace(escapes, m.source);
    EscapedNoWhitespace(escapes, m.target);
    NothingToEscape(escapes, m.fstype);
    NothingToEscape(escapes, m.options);
    FirstField(m.options, "0 0");
    FirstField(m.fstype, tail);
    FirstField(Escaped(escapes, m.target), m.fstype + " " + tail);
    FirstField(Escaped(escapes, m.source), Escaped(escapes, m.target) + " " + (m.fstype + " " + tail));
    UnescapeInvertsEscape(escapes, m.source);
    UnescapeInvertsEscape(escapes, m.target);
  }

  lemma SpacedWellEscaped(escapes: set<char>, a: string, b: string)
    requires WellEscaped(escapes, a) && WellEscaped(escapes, b)
    ensures WellEscaped(escapes, a + " " + b)
  {
    assert (" " + b)[1..] == b;
    WellEscapedConcat(escapes, a, " " + b);
    assert a + " " + b == a + (" " + b);
  }

  lemma LineWellEscaped(escapes: set<char>, m: MountInfo)
    requires EscapeSet(escapes)
    ensures WellEscaped(escapes, LineOf(escapes, m))
  {
    var source, target := Escaped(escapes, m.source), Escaped(escapes, m.target);
    var fstype, options := Escaped(escapes, m.fstype), Escaped(escapes, m.options);
    EscapedIsWellEscaped(escapes, m.source);
    EscapedIsWellEscaped(escapes, m.target);
    EscapedIsWellEscaped(escapes, m.fstype);
    EscapedIsWellEscaped(escapes, m.options);
    assert "0 0"[1..] == " 0" && " 0"[1..] == "0" && "0"[1..] == [];
    assert WellEscaped(escapes, "0");
    assert WellEscaped(escapes, " 0");
    assert WellEscaped(escapes, "0 0");
    SpacedWellEscaped(escapes, options, "0 0");
    assert options + " 0 0" == options + " " + "0 0";
    SpacedWellEscaped(escapes, fstype, options + " 0 0");
    SpacedWellEscaped(escapes, target, fstype + " " + (options + " 0 0"));
    SpacedWellEscaped(escapes, source, target + " " + (fstype + " " + (options + " 0 0")));
  }

  /** A plain field read back as it was printed needed no escaping. */
  lemma PlainReadBack(escapes: set<char>, s: string, rest: string)
    requires EscapeSet(escapes) && s != [] && NoWhitespace(s)
    requires Fields(Escaped(escapes, s) + " " + rest)[0..] != []
    requires Fields(Escaped(escapes, s) + " " + rest)[0] == s
    ensures SafePlain(escapes, s) && Escaped(escapes, s) == s
  {
    EscapedNoWhitespace(escapes, s);
    FirstField(Escaped(escapes, s), rest);
    EscapedIsWellEscaped(escapes, s);
    NothingToEscape(escapes, s);
  }

  lemma ZeroFields()
    ensures Fields("" + " 0 0") != [] && Fields("" + " 0 0")[0] == "0"
  {
    assert "" + " 0 0" == " 0 0" && " 0 0"[1..] == "0" + " " + "0";
    FirstField("0", "0");
  }

  lemma RecoveredPathsAreSafe(escapes: set<char>, m: MountInfo)
    requires EscapeSet(escapes) && ParseLine(LineOf(escapes, m)) == Some(m)
    ensures SafePath(escapes, m.source) && SafePath(escapes, m.target)
  {
    var fields := Fields(LineOf(escapes, m));
    LineWellEscaped(escapes, m);
    FieldsWellEscaped(escapes, LineOf(escapes, m));
    DecodedIsSafe(escapes, fields[0]);
    DecodedIsSafe(escapes, fields[1]);
  }

  /** Behind two safe paths, the remaining fields start with the type. */
  lemma FieldsBehindPaths(escapes: set<char>, m: MountInfo, rest: string)
    requires EscapeSet(escapes) && SafePath(escapes, m.source) && SafePath(escapes, m.target)
    ensures Fields(Escaped(escapes, m.source) + " " + (Escaped(escapes, m.target) + " " + rest)) ==
      [Escaped(escapes, m.source), Escaped(escapes, m.target)] + Fields(rest)
  {
    EscapedNoWhitespace(escapes, m.source);
    EscapedNoWhitespace(escapes, m.target);
    FirstField(Escaped(escapes, m.target), rest);
    FirstField(Escaped(escapes, m.source), Escaped(escapes, m.target) + " " + rest);
  }

  lemma RecoveredLine(escapes: set<char>, m: MountInfo)
    requires EscapeSet(escapes) && ParseLine(LineOf(escapes, m)) == Some(m)
    ensures Recoverable(escapes, m)
  {
    var tail := Escaped(escapes, m.options) + " 0 0";
    var rest := Escaped(escapes, m.fstype) + " " + tail;
    var fields := Fields(LineOf(escapes, m));
    RecoveredPathsAreSafe(escapes, m);
    FieldsBehindPaths(escapes, m, rest);
    assert fields[2] == Fields(rest)[0];
    PlainReadBack(escapes, m.fstype, tail);
    FirstField(m.fstype, tail);
    RecoveredOptions(escapes, m.options, if |fields| > 3 then fields[3] else "");
  }

  lemma RecoveredOptions(escapes: set<char>, options: string, read: string)
    requires EscapeSet(escapes)
    requires var fields := Fields(Escaped(escapes, options) + " 0 0");
      read == (if |fields| > 0 then fields[0] else "") && read == options
    ensures SafePlain(escapes, options)
  {
    ZeroFields();
    assert Escaped(escapes, options) + " 0 0" == Escaped(escapes, options) + " " + "0 0";
    if options != [] {
      PlainReadBack(escapes, options, "0 0");
    }
  }

  // ----- the whole table

  lemma {:induction false} EscapedHasNo(escapes: set<char>, s: string)
    requires EscapeSet(escapes) && '\n' in escapes
    ensures '\n' !in Escaped(escapes, s)
  {
    if s != [] {
      EscapedHasNo(escapes, s[1..]);
      if s[0] in escapes {
        EscapedCharParses(s[0]);
        assert IsWhitespace('\n');
      }
    }
  }

  lemma LineIsOneLine(escapes: set<char>, m: MountInfo)
    requires EscapeSet(escapes) && '\n' in escapes
    ensures '\n' !in LineOf(escapes, m)
    ensures StripCarriageReturn(LineOf(escapes, m)) == LineOf(escapes, m)
  {
    EscapedHasNo(escapes, m.source);
    EscapedHasNo(escapes, m.target);
    EscapedHasNo(escapes, m.fstype);
    EscapedHasNo(escapes, m.options);
    hide Escaped;
    var line := LineOf(escapes, m);
    assert line[|line| - 1] == " 0 0"[3];
  }

  lemma LinesOfRendered(escapes: set<char>, ms: seq<MountInfo>)
    requires EscapeSet(escapes) && '\n' in escapes && ms != []
    ensures Lines(Rendered(escapes, ms)) == [LineOf(escapes, ms[0])] + Lines(Rendered(escapes, ms[1..]))
  {
    var line, rest := LineOf(escapes, ms[0]), Rendered(escapes, ms[1..]);
    LineIsOneLine(escapes, ms[0]);
    var text := Rendered(escapes, ms);
    assert text[|line|] == '\n';
    assert forall i :: 0 <= i < |line| ==> text[i] == line[i];
    assert FindChar(text, '\n') == |line|;
    assert text[..|line|] == line && text[|line| + 1..] == rest;
  }

  /** Each rendered line gives at most one entry, so nothing can be lost and made up for elsewhere. */
  lemma {:induction false} RenderedLineCount(escapes: set<char>, ms: seq<MountInfo>)
    requires EscapeSet(escapes) && '\n' in escapes
    ensures |Lines(Rendered(escapes, ms))| == |ms|
  {
    if ms == [] {
      assert Rendered(escapes, ms) == [];
    } else {
      LinesOfRendered(escapes, ms);
      RenderedLineCount(escapes, ms[1..]);
    }
  }

  lemma OneLineAtATime(line: string, lines: seq<string>, m: MountInfo, ms: seq<MountInfo>)
    requires |lines| == |ms|
    ensures ParseLines([line] + lines) == [m] + ms <==> ParseLine(line) == Some(m) && ParseLines(lines) == ms
  {
    assert ([line] + lines)[1..] == lines;
    if ParseLine(line).Some? {
      var parsed := [ParseLine(line).value] + ParseLines(lines);
      assert parsed[0] == ParseLine(line).value && parsed[1..] == ParseLines(lines);
      assert ([m] + ms)[0] == m && ([m] + ms)[1..] == ms;
    }
  }

  lemma LineRecoveredIff(escapes: set<char>, m: MountInfo)
    requires EscapeSet(escapes)
    ensures ParseLine(LineOf(escapes, m)) == Some(m) <==> Recoverable(escapes, m)
  {
    if Recoverable(escapes, m) {
      LineRecovered(escapes, m);
    }
    if ParseLine(LineOf(escapes, m)) == Some(m) {
      RecoveredLine(escapes, m);
    }
  }

  ghost predicate AllRecoverable(escapes: set<char>, ms: seq<MountInfo>) {
    forall i :: 0 <= i < |ms| ==> Recoverable(escapes, ms[i])
  }

  /** The table is recovered exactly when every entry is recoverable. */
  lemma {:induction false} TableRecovered(escapes: set<char>, ms: seq<MountInfo>)
    requires EscapeSet(escapes) && '\n' in escapes
    ensures ParseMounts(Rendered(escapes, ms)) == ms <==> AllRecoverable(escapes, ms)
  {
    if ms == [] {
      assert Rendered(escapes, ms) == [];
    } else {
      LinesOfRendered(escapes, ms);
      RenderedLineCount(escapes, ms[1..]);
      TableRecovered(escapes, ms[1..]);
      LineRecoveredIff(escapes, ms[0]);
      OneLineAtATime(LineOf(escapes, ms[0]), Lines(Rendered(escapes, ms[1..])), ms[0], ms[1..]);
      RecoverableSplit(escapes, ms);
      assert ms == [ms[0]] + ms[1..];
    }
  }

  lemma RecoverableSplit(escapes: set<char>, ms: seq<MountInfo>)
    requires ms != []
    ensures AllRecoverable(escapes, ms) <==> Recoverable(escapes, ms[0]) && AllRecoverable(escapes, ms[1..])
  {
    assert ms == [ms[0]] + ms[1..];
  }

  /** Mount paths holding whitespace the kernel leaves alone, such as a no-break space, are not read back. */
  lemma UnescapedWhitespaceIsLost(escapes: set<char>, m: MountInfo, c: char)
    requires EscapeSet(escapes) && '\n' in escapes
    requires IsWhitespace(c) && c !in escapes && c in m.target
    ensures ParseMounts(Rendered(escapes, [m])) != [m]
  {
    TableRecovered(escapes, [m]);
    var i :| 0 <= i < |m.target| && m.target[i] == c;
    assert !SafePath(escapes, m.target);
    assert !Recoverable(escapes, [m][0]);
  }
}
