/**
 The JSON helpers of src/app/app_server.c and the answer payload built with them. A string here
 is what a C string holds before its terminator.
 */
module Json {
  import opened Bytes

  const PAYLOAD_SIZE: nat := 24576
  const ANSWER_SIZE: nat := 8192

  // -------------------------------------------------------------------------
  // Escaping
  // -------------------------------------------------------------------------

  function EscapeChar(c: char): (e: string)
    ensures 1 <= |e| <= 2
  {
    match c
    case '"' => "\\\""
    case '\\' => "\\\\"
    case '\r' => "\\r"
    case '\n' => "\\n"
    case '\t' => "\\t"
    case _ => [c]
  }

  function Escape(s: string): (e: string)
    ensures |s| <= |e| <= 2 * |s|
  {
    if s == "" then "" else EscapeChar(s[0]) + Escape(s[1..])
  }

  lemma Associative(a: string, b: string, c: string)
    ensures (a + b) + c == a + (b + c)
  {
  }

  lemma {:induction false} EscapeConcat(a: string, b: string)
    ensures Escape(a + b) == Escape(a) + Escape(b)
  {
    hide EscapeChar;
    if a == "" {
      assert a + b == b;
    } else {
      EscapeConcat(a[1..], b);
      assert (a + b)[1..] == a[1..] + b && (a + b)[0] == a[0];
      Associative(EscapeChar(a[0]), Escape(a[1..]), Escape(b));
    }
  }

  lemma EscapeStep(s: string, i: nat)
    requires i < |s|
    ensures Escape(s[..i + 1]) == Escape(s[..i]) + EscapeChar(s[i])
  {
    hide EscapeChar;
    assert s[..i + 1] == s[..i] + [s[i]];
    EscapeConcat(s[..i], [s[i]]);
    assert Escape([s[i]]) == EscapeChar(s[i]) + Escape([s[i]][1..]);
  }

  method CopyChars(out: array<char>, at: nat, text: string)
    requires at + |text| <= out.Length
    modifies out
    ensures out[at..at + |text|] == text
    ensures forall k :: 0 <= k < at || at + |text| <= k < out.Length ==> out[k] == old(out[k])
  {
    forall k | at <= k < at + |text| {
      out[k] := text[k - at];
    }
  }

  /** json_escape_append at an offset of the output: the escape of the longest prefix that leaves
      room for a terminator, never part of an escape sequence. */
  method EscapeAppend(input: string, out: array<char>, at: nat) returns (written: nat, kept: nat)
    requires at <= out.Length
    modifies out
    ensures kept <= |input| && written == |Escape(input[..kept])|
    ensures at + written <= out.Length && out[at..at + written] == Escape(input[..kept])
    ensures kept < |input| ==> |Escape(input[..kept + 1])| + 1 > out.Length - at
    ensures kept == |input| <==> |Escape(input)| + (if input == "" then 0 else 1) <= out.Length - at
    ensures forall k :: 0 <= k < at || at + written <= k < out.Length ==> out[k] == old(out[k])
  {
    hide Escape, EscapeChar;
    written, kept := 0, 0;
    EscapeEmpty();
    assert input[..0] == "";
    while kept < |input|
      invariant kept <= |input| && written == |Escape(input[..kept])|
      invariant kept > 0 ==> written + 1 <= out.Length - at
      invariant at + written <= out.Length && out[at..at + written] == Escape(input[..kept])
      invariant forall k :: 0 <= k < at || at + written <= k < out.Length ==> out[k] == old(out[k])
    {
      var esc := EscapeChar(input[kept]);
      EscapeStep(input, kept);
      if at + written + |esc| + 1 > out.Length {
        EscapePrefix(input, kept + 1);
        break;
      }
      ghost var before := out[at..at + written];
      CopyChars(out, at + written, esc);
      assert out[at..at + written] == before;
      assert out[at..at + written + |esc|] == before + esc;
      written := written + |esc|;
      kept := kept + 1;
    }
    assert input[..|input|] == input;
  }

  lemma EscapeEmpty()
    ensures Escape("") == ""
  {
  }

  lemma EscapePrefix(s: string, k: nat)
    requires k <= |s|
    ensures |Escape(s[..k])| <= |Escape(s)|
  {
    hide EscapeChar;
    EscapeConcat(s[..k], s[k..]);
    assert s[..k] + s[k..] == s;
  }

  // -------------------------------------------------------------------------
  // Reading a string back
  // -------------------------------------------------------------------------

  /** Base 16 strtol of the C library. */
  type Strtol = string -> int

  function Unescaped(c: char): char {
    match c
    case 'n' => '\n'
    case 'r' => '\r'
    case 't' => '\t'
    case 'b' => 8 as char
    case 'f' => 12 as char
    case _ => c
  }

  function CodeChar(code: int): char {
    if code < 128 then (code % 256) as char else '?'
  }

  /** How many characters follow the u of an escape, up to four. */
  function HexRun(t: string): (n: nat)
    requires |t| >= 2
    ensures 2 + n <= |t|
  {
    if |t| - 2 < 4 then |t| - 2 else 4
  }

  /** The character at the front of a literal's body, and how much text it takes up. */
  function FirstOf(t: string, strtol: Strtol): (r: (char, nat))
    requires t != "" && t != "\\"
    ensures 1 <= r.1 <= |t|
  {
    if t[0] != '\\' then (t[0], 1)
    else if t[1] == 'u' then (CodeChar(strtol(t[2..2 + HexRun(t)])), 2 + HexRun(t))
    else (Unescaped(t[1]), 2)
  }

  /** The body of a string literal: what is stored, at most `room` characters, and the text where
      reading stopped. */
  function ReadString(t: string, room: nat, strtol: Strtol): (r: (string, string))
    decreases |t|
  {
    if t == "" || t[0] == '"' || room == 0 then ("", t)
    else if t == "\\" then ("", "")
    else
      var (c, n) := FirstOf(t, strtol);
      var (s, rest) := ReadString(t[n..], room - 1, strtol);
      ([c] + s, rest)
  }

  /** strstr. */
  function IndexOf(text: string, pattern: string): (r: Option<nat>)
    ensures r.Some? ==> r.value + |pattern| <= |text| && text[r.value..r.value + |pattern|] == pattern
  {
    if |text| < |pattern| then None
    else if text[..|pattern|] == pattern then Some(0)
    else if text == "" then None
    else
      match IndexOf(text[1..], pattern)
      case None => None
      case Some(i) =>
        assert text[1..][i..i + |pattern|] == text[i + 1..i + 1 + |pattern|];
        Some(i + 1)
  }

  /** It is the first occurrence, if there is any. */
  lemma {:induction false} FirstOccurrence(text: string, pattern: string, k: nat)
    requires k + |pattern| <= |text| && text[k..k + |pattern|] == pattern
    ensures IndexOf(text, pattern).Some? && IndexOf(text, pattern).value <= k
    decreases |text|
  {
    if k == 0 {
      assert text[..|pattern|] == pattern;
    } else {
      assert text[1..][k - 1..k - 1 + |pattern|] == text[k..k + |pattern|];
      FirstOccurrence(text[1..], pattern, k - 1);
    }
  }

  function SkipSeparators(t: string): (r: string)
  {
    if t != "" && (t[0] == ' ' || t[0] == ':') then SkipSeparators(t[1..]) else t
  }

  /** The text behind the opening quote of a field's value. */
  function Literal(body: string, field: string): (r: Option<string>) {
    match IndexOf(body, "\"" + field + "\"")
    case None => None
    case Some(i) =>
      var t := SkipSeparators(body[i + |field| + 2..]);
      if t == "" || t[0] != '"' then None else Some(t[1..])
  }

  /** Blanks and colons are skipped, and nothing else. */
  lemma {:induction false} SeparatorsSkipped(sep: string, rest: string)
    requires forall i :: 0 <= i < |sep| ==> sep[i] == ' ' || sep[i] == ':'
    requires rest == "" || (rest[0] != ' ' && rest[0] != ':')
    ensures SkipSeparators(sep + rest) == rest
    decreases |sep|
  {
    if sep == "" {
      assert sep + rest == rest;
    } else {
      assert (sep + rest)[0] == sep[0] && (sep + rest)[1..] == sep[1..] + rest;
      SeparatorsSkipped(sep[1..], rest);
    }
  }

  /** json_get_string as a function: the field's value, if it is a string that fits. */
  function GetString(body: string, field: string, size: nat, strtol: Strtol): (r: Option<string>)
    requires size > 0
  {
    match Literal(body, field)
    case None => None
    case Some(t) =>
      var (s, rest) := ReadString(t, size - 1, strtol);
      if rest != "" && rest[0] == '"' then Some(s) else None
  }

  /** How much text one character of a literal's body takes up, an escape included. */
  function Width(t: string): (n: nat)
    requires t != "" && t != "\\"
    ensures 1 <= n <= |t|
  {
    if t[0] != '\\' then 1 else if t[1] == 'u' then 2 + HexRun(t) else 2
  }

  /** Reading never comes to a lone backslash at the end of the text, where the source would step
      over the terminator. */
  predicate StaysInside(t: string, room: nat)
    decreases |t|
  {
    t == "" || t[0] == '"' || room == 0 || (t != "\\" && StaysInside(t[Width(t)..], room - 1))
  }

  /** Whether json_get_string reads nothing behind the body's terminator. */
  predicate ReadsInside(body: string, field: string, size: nat)
    requires size > 0
  {
    match Literal(body, field)
    case None => true
    case Some(t) => StaysInside(t, size - 1)
  }

  /** The loops of json_get_string, up to where the source would leave the body: `inside` is false
      exactly then, and nothing more is said of the source. */
  method JsonGetString(body: string, field: string, out: array<char>, strtol: Strtol)
    returns (ok: bool, length: nat, inside: bool)
    requires out.Length > 0
    modifies out
    ensures inside <==> ReadsInside(body, field, out.Length)
    ensures ok ==> length < out.Length && Some(out[..length]) == GetString(body, field, out.Length, strtol)
    ensures !ok ==> GetString(body, field, out.Length, strtol) == None
  {
    hide IndexOf, ReadString, StaysInside;
    ok, length, inside := false, 0, true;
    var pattern := "\"" + field + "\"";
    var found := IndexOf(body, pattern);
    if found.None? {
      return;
    }
    ghost var start := body[found.value + |pattern|..];
    var pos := found.value + |pattern|;
    while pos < |body| && (body[pos] == ' ' || body[pos] == ':')
      invariant pos <= |body| && SkipSeparators(body[pos..]) == SkipSeparators(start)
    {
      assert body[pos..][1..] == body[pos + 1..];
      pos := pos + 1;
    }
    if pos == |body| || body[pos] != '"' {
      return;
    }
    assert body[pos..] == SkipSeparators(start);
    assert body[pos..][1..] == body[pos + 1..];
    pos, length, inside := ReadInto(body, pos + 1, out, strtol);
    ok := pos < |body| && body[pos] == '"';
  }

  /** What is stored so far, and what reading the rest would add. */
  ghost predicate Reading(whole: (string, string), done: string, rest: (string, string)) {
    whole == (done + rest.0, rest.1)
  }

  lemma ReadingStart(whole: (string, string))
    ensures Reading(whole, "", whole)
  {
    assert "" + whole.0 == whole.0;
  }

  lemma ReadingStep(whole: (string, string), done: string, c: char, rest: (string, string))
    requires Reading(whole, done, ([c] + rest.0, rest.1))
    ensures Reading(whole, done + [c], rest)
  {
    assert done + ([c] + rest.0) == done + [c] + rest.0;
  }

  lemma ReadingEnd(whole: (string, string), done: string, t: string)
    requires Reading(whole, done, ("", t))
    ensures whole == (done, t)
  {
    assert done + "" == done;
  }

  lemma ReadStops(t: string, room: nat, strtol: Strtol)
    ensures t == "" || t[0] == '"' || room == 0 ==> ReadString(t, room, strtol) == ("", t)
    ensures t == "\\" && room > 0 ==> ReadString(t, room, strtol) == ("", "") && !StaysInside(t, room)
    ensures t == "" || t[0] == '"' || room == 0 ==> StaysInside(t, room)
  {
  }

  lemma ReadGoesOn(t: string, room: nat, strtol: Strtol)
    requires t != "" && t[0] != '"' && t != "\\" && room > 0
    ensures var (c, n) := FirstOf(t, strtol);
            var (s, rest) := ReadString(t[n..], room - 1, strtol);
            ReadString(t, room, strtol) == ([c] + s, rest) && (StaysInside(t, room) <==> StaysInside(t[n..], room - 1))
  {
  }

  method ReadInto(body: string, start: nat, out: array<char>, strtol: Strtol)
    returns (pos: nat, length: nat, inside: bool)
    requires start <= |body| && out.Length > 0
    modifies out
    ensures pos <= |body| && length < out.Length
    ensures (out[..length], body[pos..]) == ReadString(body[start..], out.Length - 1, strtol)
    ensures inside <==> StaysInside(body[start..], out.Length - 1)
  {
    hide FirstOf, Reading, ReadString, StaysInside;
    ghost var whole := ReadString(body[start..], out.Length - 1, strtol);
    pos, length, inside := start, 0, true;
    ReadingStart(whole);
    assert out[..0] == "";
    while pos < |body| && body[pos] != '"' && length + 1 < out.Length
      invariant start <= pos <= |body| && length < out.Length
      invariant Reading(whole, out[..length], ReadString(body[pos..], out.Length - 1 - length, strtol))
      invariant inside && (StaysInside(body[start..], out.Length - 1) <==>
                           StaysInside(body[pos..], out.Length - 1 - length))
      decreases |body| - pos
    {
      ghost var t, done := body[pos..], out[..length];
      if body[pos] == '\\' && pos + 1 == |body| {
        assert t == "\\";
        ReadStops(t, out.Length - 1 - length, strtol);
        ReadingEnd(whole, done, "");
        pos, inside := |body|, false;
        assert body[pos..] == "";
        return;
      }
      ReadGoesOn(t, out.Length - 1 - length, strtol);
      var c, n := Decode(body, pos, strtol);
      assert t[n..] == body[pos + n..];
      pos := pos + n;
      ReadingStep(whole, done, c, ReadString(body[pos..], out.Length - 2 - length, strtol));
      out[length] := c;
      length := length + 1;
      assert out[..length] == done + [c];
    }
    ReadStops(body[pos..], out.Length - 1 - length, strtol);
    ReadingEnd(whole, out[..length], body[pos..]);
  }

  /** One character of the body: the switch over the escapes. */
  method Decode(body: string, pos: nat, strtol: Strtol) returns (c: char, n: nat)
    requires pos < |body| && (body[pos] == '\\' ==> pos + 1 < |body|)
    ensures (c, n) == FirstOf(body[pos..], strtol)
  {
    ghost var t := body[pos..];
    c, n := body[pos], 1;
    if c == '\\' {
      c, n := body[pos + 1], 2;
      if c == 'u' {
        var run := if |body| - pos - 2 < 4 then |body| - pos - 2 else 4;
        assert t[2..2 + run] == body[pos + 2..pos + 2 + run];
        c, n := CodeChar(strtol(body[pos + 2..pos + 2 + run])), 2 + run;
      } else {
        c := Unescaped(c);
      }
    }
  }

  // -------------------------------------------------------------------------
  // Staying inside the body
  // -------------------------------------------------------------------------

  /** A literal that is read to its closing quote was read inside the body. */
  lemma {:induction false} ClosedStaysInside(t: string, room: nat, strtol: Strtol)
    requires ReadString(t, room, strtol).1 != ""
    ensures StaysInside(t, room)
    decreases |t|
  {
    if t != "" && t[0] != '"' && room > 0 {
      assert FirstOf(t, strtol).1 == Width(t);
      ClosedStaysInside(t[Width(t)..], room - 1, strtol);
    }
  }

  /** Where one pass over a literal, character by character, stands: how many characters are stored,
      and how much of an escape is behind. */
  datatype Scan =
    | InText(stored: nat)
    | AfterBackslash(stored: nat)
    | InHex(left: nat, stored: nat)
    | AfterQuote

  function ScanChar(s: Scan, c: char): (r: Scan) {
    match s
    case InText(n) => if c == '"' then AfterQuote else if c == '\\' then AfterBackslash(n) else InText(n + 1)
    case AfterBackslash(n) => if c == 'u' then InHex(4, n) else InText(n + 1)
    case InHex(left, n) => if left <= 1 then InText(n + 1) else InHex(left - 1, n)
    case AfterQuote => AfterQuote
  }

  function ScanText(s: Scan, t: string): (r: Scan)
    decreases |t|
  {
    if t == "" then s else ScanText(ScanChar(s, t[0]), t[1..])
  }

  lemma {:induction false} ScanGrows(s: Scan, t: string)
    ensures var r := ScanText(s, t);
            if s.AfterQuote? then r.AfterQuote? else r.AfterQuote? || r.stored >= s.stored
    decreases |t|
  {
    if t != "" {
      ScanGrows(ScanChar(s, t[0]), t[1..]);
    }
  }

  /** The characters after a u are passed over, whatever they are. */
  lemma {:induction false} ScanHex(left: nat, stored: nat, t: string)
    requires 0 < left
    ensures ScanText(InHex(left, stored), t) ==
            if |t| < left then InHex(left - |t|, stored) else ScanText(InText(stored + 1), t[left..])
    decreases left
  {
    if t != "" {
      if left > 1 {
        ScanHex(left - 1, stored, t[1..]);
        assert |t| >= left ==> t[1..][left - 1..] == t[left..];
      }
    }
  }

  /** One character of the literal, unless the text ends within its digits. */
  lemma ScanOne(stored: nat, t: string)
    requires t != "" && t != "\\" && t[0] != '"'
    ensures ScanText(InText(stored), t) == ScanText(InText(stored + 1), t[Width(t)..])
            || (t[Width(t)..] == "" && ScanText(InText(stored), t).InHex?)
  {
    if t[0] == '\\' {
      assert t[1..][1..] == t[2..];
      assert ScanText(InText(stored), t) == ScanText(ScanChar(AfterBackslash(stored), t[1]), t[2..]);
      if t[1] == 'u' {
        ScanHex(4, stored, t[2..]);
        assert |t| - 2 >= 4 ==> t[2..][4..] == t[6..];
      }
    }
  }

  lemma {:induction false} LeavesFrom(t: string, room: nat, stored: nat)
    ensures var s := ScanText(InText(stored), t);
            !StaysInside(t, room) <==> s.AfterBackslash? && s.stored < stored + room
    decreases |t|
  {
    ScanGrows(InText(stored), t);
    if t == "\\" {
      assert t[1..] == "";
    } else if t != "" && t[0] == '"' {
      ScanGrows(AfterQuote, t[1..]);
    } else if t != "" && room > 0 {
      ScanOne(stored, t);
      LeavesFrom(t[Width(t)..], room - 1, stored + 1);
    }
  }

  /** json_get_string leaves the body exactly if the field's literal ends in a backslash that is not
      itself escaped, nor among the four characters after a u, nor behind the closing quote, and room
      is left when reading gets there. One pass over the body tells. */
  lemma LeavesExact(body: string, field: string, size: nat)
    requires size > 0
    ensures !ReadsInside(body, field, size) <==>
            match Literal(body, field)
            case None => false
            case Some(t) => var s := ScanText(InText(0), t); s.AfterBackslash? && s.stored + 1 < size
  {
    hide Literal, StaysInside, ScanText;
    if t: string :| Literal(body, field) == Some(t) {
      LeavesFrom(t, size - 1, 0);
    }
  }

  /** A body it leaves, and two endings in a backslash that it does not leave. */
  lemma LoneBackslashLeaves(size: nat, room: nat)
    requires size > 1
    ensures !ReadsInside("{\"sdp\":\"\\", "sdp", size)
    ensures StaysInside("\\\\", room) && StaysInside("\\u12\\", room)
  {
    var body, key := "{\"sdp\":\"\\", "\"sdp\"";
    assert "\"" + "sdp" + "\"" == key;
    assert body[..5] != key by {
      assert body[..5][0] == '{';
    }
    assert body[1..][..5] == key;
    assert IndexOf(body[1..], key) == Some(0);
    assert IndexOf(body, key) == Some(1);
    var t := body[6..];
    assert t == ":\"\\" && t[1..] == "\"\\";
    assert SkipSeparators(t[1..]) == t[1..];
    assert SkipSeparators(t) == t[1..];
    assert t[1..][1..] == "\\";
    assert Literal(body, "sdp") == Some("\\");
  }

  /** Reading leaves the body only if the body ends in a backslash that begins no escape. */
  lemma {:induction false} LeavesAtBackslash(t: string, room: nat)
    requires !StaysInside(t, room)
    ensures t != "" && t[|t| - 1] == '\\'
    decreases |t|
  {
    if t != "\\" {
      LeavesAtBackslash(t[Width(t)..], room - 1);
    }
  }

  /** And from there it is exactly a lone backslash that makes it leave: with a closing quote behind
      it the same text is read inside. */
  lemma {:induction false} QuoteStaysInside(t: string, room: nat)
    requires !StaysInside(t, room)
    ensures StaysInside(t + "\"", room)
    decreases |t|
  {
    var q := t + "\"";
    if t == "\\" {
      assert q[0] == '\\' && q[1] == '"' && q[2..] == "";
    } else {
      LeavesAtBackslash(t, room);
      var rest := t[Width(t)..];
      LeavesAtBackslash(rest, room - 1);
      assert q[0] == t[0] && (|t| > 1 ==> q[1] == t[1]);
      assert Width(q) == Width(t);
      assert q[Width(t)..] == rest + "\"";
      QuoteStaysInside(rest, room - 1);
    }
  }

  // -------------------------------------------------------------------------
  // Escaping and reading undo each other
  // -------------------------------------------------------------------------

  lemma FirstEscaped(c: char, t: string, strtol: Strtol)
    ensures var w := EscapeChar(c) + t;
            w != "" && w[0] != '"' && w != "\\" && FirstOf(w, strtol) == (c, |EscapeChar(c)|)
  {
    var e := EscapeChar(c);
    var w := e + t;
    assert w[0] == e[0];
    if |e| == 2 {
      assert w[1] == e[1];
    }
  }

  lemma ReadOne(c: char, t: string, room: nat, strtol: Strtol)
    requires room > 0
    ensures var (s, rest) := ReadString(t, room - 1, strtol);
            ReadString(EscapeChar(c) + t, room, strtol) == ([c] + s, rest)
  {
    hide EscapeChar, FirstOf;
    FirstEscaped(c, t, strtol);
    assert (EscapeChar(c) + t)[|EscapeChar(c)|..] == t;
  }

  /** What reading an escaped string gives. */
  function Expected(s: string, tail: string, room: nat): (string, string) {
    if |s| <= room then (s, "\"" + tail) else (s[..room], Escape(s[room..]) + "\"" + tail)
  }

  lemma ExpectedStep(s: string, tail: string, room: nat)
    requires s != "" && room > 0
    ensures Expected(s, tail, room) == ([s[0]] + Expected(s[1..], tail, room - 1).0, Expected(s[1..], tail, room - 1).1)
  {
    hide Escape;
    if |s| > room {
      assert [s[0]] + s[1..][..room - 1] == s[..room];
      assert s[1..][room - 1..] == s[room..];
    } else {
      assert [s[0]] + s[1..] == s;
    }
  }

  /** An escaped string is read back exactly, up to the room there is. */
  lemma {:induction false} ReadEscaped(s: string, tail: string, room: nat, strtol: Strtol)
    ensures ReadString(Escape(s) + "\"" + tail, room, strtol) == Expected(s, tail, room)
  {
    hide EscapeChar, FirstOf;
    if s == "" {
      assert Escape(s) + "\"" + tail == "\"" + tail;
    } else if room == 0 {
      assert s[0..] == s && s[..0] == "";
    } else {
      ReadEscaped(s[1..], tail, room - 1, strtol);
      ReadOne(s[0], Escape(s[1..]) + "\"" + tail, room, strtol);
      ExpectedStep(s, tail, room);
      hide ReadString, Expected;
      Associative(EscapeChar(s[0]), Escape(s[1..]), "\"");
      Associative(EscapeChar(s[0]), Escape(s[1..]) + "\"", tail);
    }
  }

  /** A character that needs no escape is its own; no escape starts with a quote. */
  lemma EscapeStart(s: string, tail: string)
    requires s != ""
    ensures Escape(s) + tail != "" && (Escape(s) + tail)[0] != '"'
  {
    assert (Escape(s) + tail)[0] == EscapeChar(s[0])[0];
  }

  // -------------------------------------------------------------------------
  // Escaped text inside a literal
  // -------------------------------------------------------------------------

  lemma {:induction false} ScanConcat(s: Scan, a: string, b: string)
    ensures ScanText(s, a + b) == ScanText(ScanText(s, a), b)
    decreases |a|
  {
    if a == "" {
      assert a + b == b;
    } else {
      assert (a + b)[0] == a[0] && (a + b)[1..] == a[1..] + b;
      ScanConcat(ScanChar(s, a[0]), a[1..], b);
    }
  }

  lemma ScanShort(s: Scan, a: char, b: char)
    ensures ScanText(s, [a]) == ScanChar(s, a) && ScanText(s, [a, b]) == ScanChar(ScanChar(s, a), b)
  {
    assert [a][1..] == "" && [a, b][1..] == [b] && [b][1..] == "";
    assert ScanText(ScanChar(s, a), [b]) == ScanText(ScanChar(ScanChar(s, a), b), "");
  }

  lemma ScanEscape(c: char, stored: nat)
    ensures ScanText(InText(stored), EscapeChar(c)) == InText(stored + 1)
  {
    hide ScanText;
    var e := EscapeChar(c);
    if |e| == 2 {
      assert e == [e[0], e[1]];
      ScanShort(InText(stored), e[0], e[1]);
    } else {
      assert e == [c];
      ScanShort(InText(stored), c, c);
    }
  }

  /** A reader of escaped text meets no quote that would end the literal, is left behind no backslash,
      and has stored one character for each of the original. */
  lemma {:induction false} EscapedStaysOpen(s: string, stored: nat)
    ensures ScanText(InText(stored), Escape(s)) == InText(stored + |s|)
    decreases |s|
  {
    hide EscapeChar;
    if s != "" {
      ScanConcat(InText(stored), EscapeChar(s[0]), Escape(s[1..]));
      ScanEscape(s[0], stored);
      EscapedStaysOpen(s[1..], stored + 1);
    }
  }

  /** The control characters that are copied as they are. */
  predicate RawControl(c: char) {
    c < 32 as char && c != 9 as char && c != 10 as char && c != 13 as char
  }

  /** A text holds a character that a JSON string must not. */
  predicate HoldsControl(t: string) {
    exists i :: 0 <= i < |t| && t[i] < 32 as char
  }

  predicate HoldsRaw(s: string) {
    exists i :: 0 <= i < |s| && RawControl(s[i])
  }

  lemma ControlConcat(a: string, b: string)
    ensures HoldsControl(a + b) <==> HoldsControl(a) || HoldsControl(b)
  {
    if HoldsControl(a) {
      var i :| 0 <= i < |a| && a[i] < 32 as char;
      assert (a + b)[i] < 32 as char;
    }
    if HoldsControl(b) {
      var i :| 0 <= i < |b| && b[i] < 32 as char;
      assert (a + b)[|a| + i] < 32 as char;
    }
  }

  lemma RawFront(s: string)
    requires s != ""
    ensures HoldsRaw(s) <==> RawControl(s[0]) || HoldsRaw(s[1..])
  {
    hide RawControl;
    if HoldsRaw(s[1..]) {
      var i :| 0 <= i < |s[1..]| && RawControl(s[1..][i]);
      assert RawControl(s[i + 1]);
    }
    if HoldsRaw(s) && !RawControl(s[0]) {
      var i :| 0 <= i < |s| && RawControl(s[i]);
      assert RawControl(s[1..][i - 1]);
    }
  }

  lemma EscapeControls(c: char)
    ensures HoldsControl(EscapeChar(c)) <==> RawControl(c)
  {
    var e := EscapeChar(c);
    if RawControl(c) {
      assert e == [c] && [c][0] < 32 as char;
      assert HoldsControl([c]);
    }
  }

  /** Escaped text holds no line break or tab; it holds a character below 32, which a JSON string must
      not, exactly if the original has one that is none of these three. */
  lemma {:induction false} ControlsExact(s: string)
    ensures HoldsControl(Escape(s)) <==> HoldsRaw(s)
    decreases |s|
  {
    hide EscapeChar, RawControl, HoldsControl, HoldsRaw;
    if s == "" {
      NoControls();
    } else {
      EscapeControls(s[0]);
      ControlsExact(s[1..]);
      ControlConcat(EscapeChar(s[0]), Escape(s[1..]));
      RawFront(s);
    }
  }

  lemma NoControls()
    ensures !HoldsControl("") && !HoldsRaw("")
  {
  }

  /** The escapes of the source, one by one. */
  lemma EscapesRead(t: string, strtol: Strtol)
    ensures FirstOf("\\n" + t, strtol) == (10 as char, 2) && FirstOf("\\r" + t, strtol) == (13 as char, 2)
    ensures FirstOf("\\t" + t, strtol) == (9 as char, 2) && FirstOf("\\b" + t, strtol) == (8 as char, 2)
    ensures FirstOf("\\f" + t, strtol) == (12 as char, 2) && FirstOf("\\/" + t, strtol) == ('/', 2)
    ensures FirstOf("\\\\" + t, strtol) == ('\\', 2) && FirstOf("\\\"" + t, strtol) == ('"', 2)
    ensures strtol("0041") == 65 ==> FirstOf("\\u0041" + t, strtol) == ('A', 6)
    ensures strtol("00e9") == 233 ==> FirstOf("\\u00e9" + t, strtol) == ('?', 6)
  {
    var a, b := "\\u0041" + t, "\\u00e9" + t;
    assert a[2..6] == "0041" && b[2..6] == "00e9";
  }

  // -------------------------------------------------------------------------
  // The answer payload
  // -------------------------------------------------------------------------

  /** %u */
  function Decimal(n: nat): (d: string)
    ensures d != "" && '"' !in d
  {
    (if n < 10 then "" else Decimal(n / 10)) + ['0' + (n % 10) as char]
  }

  lemma {:induction false} DecimalShort(n: nat, digits: nat, limit: nat)
    requires digits > 0 && n < limit && limit == Power10(digits)
    ensures |Decimal(n)| <= digits
    decreases digits
  {
    if n >= 10 {
      PowerStep(n, digits);
      DecimalShort(n / 10, digits - 1, Power10(digits - 1));
    }
  }

  lemma PowerStep(n: nat, digits: nat)
    requires digits > 0 && 10 <= n < Power10(digits)
    ensures digits > 1 && n / 10 < Power10(digits - 1)
  {
    assert Power10(0) == 1;
    assert Power10(digits) == 10 * Power10(digits - 1);
  }

  function Power10(k: nat): (p: nat)
    ensures p > 0
  {
    if k == 0 then 1 else 10 * Power10(k - 1)
  }

  const LEAD: string := "{\"type\":\"answer\",\"session_id\":"
  const MIDDLE: string := ",\"udp_port\":"
  const KEY: string := "\"sdp\""

  function Before(id: u32, port: u16): (s: string) {
    LEAD + Decimal(id) + MIDDLE + Decimal(port) + ","
  }

  function Head(id: u32, port: u16): (s: string) {
    Before(id, port) + KEY + ":\""
  }

  /** The JSON answer to an offer. */
  function Payload(id: u32, port: u16, sdp: string): (s: string) {
    Head(id, port) + Escape(sdp) + "\"}"
  }

  lemma PayloadText(id: u32, port: u16, sdp: string)
    ensures Payload(id, port, sdp) ==
            "{\"type\":\"answer\",\"session_id\":" + Decimal(id) + (",\"udp_port\":" + Decimal(port)) +
            (",\"sdp\":\"" + Escape(sdp) + "\"}")
  {
    hide Decimal, Escape;
    assert ",\"sdp\":\"" == "," + KEY + ":\"";
  }

  predicate KeylessAt(t: string, i: nat)
    requires i < |t|
  {
    t[i] == '"' ==> i + 1 < |t| && (t[i + 1] != 's' || (i + 2 < |t| && t[i + 2] != 'd'))
  }

  /** No quote of a text starts the key: each is followed by something that is not "sd". */
  ghost predicate Keyless(t: string) {
    forall i :: 0 <= i < |t| ==> KeylessAt(t, i)
  }

  lemma KeylessConcat(a: string, b: string)
    requires Keyless(a) && Keyless(b)
    ensures Keyless(a + b)
  {
    forall i | 0 <= i < |a + b|
      ensures KeylessAt(a + b, i)
    {
      if i >= |a| {
        assert KeylessAt(b, i - |a|);
      } else {
        assert KeylessAt(a, i);
      }
    }
  }

  lemma KeylessBefore(id: u32, port: u16)
    ensures Keyless(Before(id, port))
  {
    hide Decimal;
    assert Keyless(LEAD);
    assert Keyless(MIDDLE);
    KeylessConcat(LEAD, Decimal(id));
    KeylessConcat(LEAD + Decimal(id), MIDDLE);
    KeylessConcat(LEAD + Decimal(id) + MIDDLE, Decimal(port));
    KeylessConcat(LEAD + Decimal(id) + MIDDLE + Decimal(port), ",");
  }

  lemma NotHere(before: string, after: string)
    requires before != "" && KeylessAt(before, 0)
    ensures (before + KEY + after)[..|KEY|] != KEY
  {
    var t := before + KEY + after;
    assert t[..|KEY|][0] == before[0];
    if |before| > 1 {
      assert t[..|KEY|][1] == before[1];
    }
    if |before| > 2 {
      assert t[..|KEY|][2] == before[2];
    }
  }

  /** The key is first found right after a keyless text. */
  lemma {:induction false} KeyFound(before: string, after: string)
    requires Keyless(before)
    ensures IndexOf(before + KEY + after, KEY) == Some(|before|)
    decreases |before|
  {
    var t := before + KEY + after;
    if before == "" {
      assert t[..|KEY|] == KEY;
    } else {
      assert t[1..] == before[1..] + KEY + after;
      assert KeylessAt(before, 0);
      NotHere(before, after);
      forall i | 0 <= i < |before[1..]|
        ensures KeylessAt(before[1..], i)
      {
        assert KeylessAt(before, i + 1);
      }
      KeyFound(before[1..], after);
    }
  }

  /** Extracting the sdp field of the payload returns the original answer, exactly when the
      receiving buffer has room for it, and never leaves the body. */
  lemma PayloadRoundTrip(id: u32, port: u16, sdp: string, size: nat, strtol: Strtol)
    requires size > 0
    ensures GetString(Payload(id, port, sdp), "sdp", size, strtol) == if |sdp| < size then Some(sdp) else None
    ensures ReadsInside(Payload(id, port, sdp), "sdp", size)
  {
    hide Escape, IndexOf, ReadString, StaysInside, Before, Keyless;
    var before := Before(id, port);
    var body := Payload(id, port, sdp);
    var after := ":\"" + Escape(sdp) + "\"}";
    KeylessBefore(id, port);
    KeyFound(before, after);
    assert body == before + KEY + after;
    assert "\"" + "sdp" + "\"" == KEY;
    assert body[|before| + 5..] == after;
    var t := "\"" + Escape(sdp) + "\"}";
    assert after[1..] == t && SkipSeparators(after) == SkipSeparators(t) == t;
    ReadEscaped(sdp, "}", size - 1, strtol);
    assert t[1..] == Escape(sdp) + "\"" + "}";
    ClosedStaysInside(t[1..], size - 1, strtol);
    if |sdp| >= size {
      EscapeStart(sdp[size - 1..], "\"" + "}");
      assert Escape(sdp[size - 1..]) + ("\"" + "}") == Escape(sdp[size - 1..]) + "\"" + "}";
    }
  }

  lemma HeadShort(id: u32, port: u16)
    ensures |Head(id, port)| <= 100
  {
    hide Decimal, Power10;
    Tens();
    DecimalShort(id, 10, 10000000000);
    DecimalShort(port, 5, 100000);
  }

  lemma Tens()
    ensures Power10(5) == 100000 && Power10(10) == 10000000000
  {
    assert Power10(2) == 100;
    assert Power10(4) == 10000;
    assert Power10(6) == 1000000;
    assert Power10(8) == 100000000;
  }

  method Append(out: array<char>, at: nat, text: string)
    requires at + |text| <= out.Length
    modifies out
    ensures out[..at + |text|] == old(out[..at]) + text
  {
    CopyChars(out, at, text);
    assert out[..at] == old(out[..at]);
  }

  /** The payload assembly of handle_rtc_offer: for any answer that fits its own buffer the three
      overflow checks all pass. */
  method BuildPayload(id: u32, port: u16, answer: string, payload: array<char>) returns (length: nat)
    requires payload.Length == PAYLOAD_SIZE && |answer| < ANSWER_SIZE
    modifies payload
    ensures length < PAYLOAD_SIZE && payload[..length] == Payload(id, port, answer)
  {
    hide Escape, Head;
    var head := Head(id, port);
    HeadShort(id, port);
    assert |head| < PAYLOAD_SIZE;
    Append(payload, 0, head);
    var esc, kept := EscapeAppend(answer, payload, |head|);
    assert answer[..|answer|] == answer;
    assert payload[..|head| + esc] == head + Escape(answer);
    assert !(esc == 0 && answer != "");
    length := |head| + esc;
    assert 2 < PAYLOAD_SIZE - length;
    Append(payload, length, "\"}");
    length := length + 2;
  }
}
