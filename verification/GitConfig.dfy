/** Writing a value into a git configuration file and what git reads back (internal/git/config.go). */
module GitConfig {
  import opened Basics

  /** The characters that are written as an escape sequence. */
  function EscapeChar(c: char): string {
    if c == '\n' then "\\n"
    else if c == '\t' then "\\t"
    else if c == '"' || c == '\\' then ['\\', c]
    else [c]
  }

  function Escape(v: string): string {
    if v == "" then "" else EscapeChar(v[0]) + Escape(v[1..])
  }

  /** The condition under which the writer puts quotes around a value. */
  predicate Quoted(v: string) {
    (v != "" && (v[0] == ' ' || v[|v| - 1] == ' ')) || '#' in v || ':' in v
  }

  /** What follows the equals sign. */
  function WrittenValue(v: string): string {
    if Quoted(v) then " \"" + Escape(v) + "\"\n" else " " + Escape(v) + "\n"
  }

  lemma {:induction false} EscapeAppends(a: string, b: string)
    ensures Escape(a + b) == Escape(a) + Escape(b)
  {
    if a == "" {
      assert a + b == b;
    } else {
      assert (a + b)[1..] == a[1..] + b;
      EscapeAppends(a[1..], b);
    }
  }

  lemma EscapeStep(v: string, i: nat)
    requires i < |v|
    ensures Escape(v[..i + 1]) == Escape(v[..i]) + EscapeChar(v[i])
  {
    assert v[..i + 1] == v[..i] + [v[i]];
    EscapeAppends(v[..i], [v[i]]);
    assert Escape([v[i]]) == EscapeChar(v[i]) + Escape([]);
  }

  /** An io.Writer; a Write that fails may have written a part. */
  class Writer {
    var written: string
    /** Writes that failed. */
    ghost var failures: nat

    constructor ()
      ensures written == "" && failures == 0
    {
      written, failures := "", 0;
    }

    method Write(s: string) returns (ok: bool)
      modifies this
      ensures if ok then written == old(written) + s else old(written) <= written <= old(written) + s
      ensures failures == old(failures) + if ok then 0 else 1
    {
      ok := *;
      if ok {
        written := written + s;
      } else {
        var n: nat :| n <= |s|;
        assert written + s[..n] <= written + s;
        written, failures := written + s[..n], failures + 1;
      }
    }
  }

  /** Something between nothing and all of `s` was written behind `base`. */
  ghost predicate Partly(base: string, now: string, s: string) {
    base <= now <= base + s
  }

  /** A piece that was cut off, when `out` was written and the pieces so far are a part of the whole. */
  lemma CutOffPiece(base: string, out: string, piece: string, now: string, whole: string)
    requires Partly(base + out, now, piece) && out + piece <= whole
    ensures Partly(base, now, whole)
  {
    assert base + out + piece == base + (out + piece);
  }

  /** What has to be written in front of a character, and how much of the character itself that leaves. */
  function EscapePiece(c: char): string {
    match c
    case '\n' => "\\n"
    case '\t' => "\\t"
    case '"' => "\\"
    case '\\' => "\\"
    case _ => ""
  }

  lemma CutOffHead(base: string, head: string, now: string, rest: string)
    requires Partly(base, now, head)
    ensures Partly(base, now, head + rest)
  {
    Associative(base, head, rest);
  }

  lemma EscapeCharIs(c: char)
    ensures EscapeChar(c) == EscapePiece(c) + if |EscapePiece(c)| == 2 then "" else [c]
  {}

  lemma EscapePrefix(v: string, i: nat)
    requires i < |v|
    ensures Escape(v[..i]) + EscapePiece(v[i]) <= Escape(v)
  {
    var front, back := v[..i + 1], v[i + 1..];
    assert v == front + back;
    EscapeAppends(front, back);
    EscapeStep(v, i);
    EscapeCharIs(v[i]);
    PrefixOfJoin(Escape(v[..i]), EscapePiece(v[i]), if |EscapePiece(v[i])| == 2 then "" else [v[i]], Escape(back));
  }

  lemma PrefixOfJoin(a: string, b: string, c: string, d: string)
    ensures a + b <= a + (b + c) + d
  {
    assert a + (b + c) + d == (a + b) + (c + d);
  }

  /** How one more character joins the part that is written and the part that waits. */
  lemma WaitingStep(v: string, out: string, start: nat, i: nat)
    requires start <= i < |v| && out + v[start..i] == Escape(v[..i])
    ensures EscapePiece(v[i]) == "" ==> out + v[start..i + 1] == Escape(v[..i + 1])
    ensures var escape := EscapePiece(v[i]);
            escape != "" ==>
              out + (v[start..i] + escape) + v[if |escape| == 2 then i + 1 else i..i + 1] == Escape(v[..i + 1])
    ensures out + (v[start..i] + EscapePiece(v[i])) <= Escape(v)
  {
    EscapeStep(v, i);
    EscapeCharIs(v[i]);
    EscapePrefix(v, i);
    OneMore(out, v[start..i], EscapePiece(v[i]), if |EscapePiece(v[i])| == 2 then "" else [v[i]]);
    OneCharMore(v, start, i);
  }

  lemma OneCharMore(v: string, start: nat, i: nat)
    requires start <= i < |v|
    ensures v[i..i + 1] == [v[i]] && v[i + 1..i + 1] == "" && v[start..i + 1] == v[start..i] + [v[i]]
  {
    assert v[i..i + 1] == [v[i]];
    SplitSlice(v, start, i, i + 1);
  }

  lemma OneMore(out: string, waiting: string, escape: string, c: string)
    ensures out + (waiting + escape) == out + waiting + escape
    ensures out + (waiting + escape) + c == out + waiting + (escape + c)
    ensures escape == "" ==> out + (waiting + c) == out + waiting + (escape + c)
  {
    Associative(out, waiting, escape);
    Associative(out + waiting, escape, c);
    if escape == "" {
      Associative(out, waiting, c);
      assert escape + c == c;
    }
  }

  /**
    The body of the loop of writeConfigKeyValuePair. `start` is where the part of the value begins that is not
    written yet; for a quote or a backslash it is the character itself, which is to come out behind its escape.
   */
  method WriteBefore(w: Writer, value: string, i: nat, start: nat, ghost base: string, ghost out: string)
    returns (next: nat, ok: bool, ghost more: string)
    requires start <= i < |value| && w.written == base + out && out + value[start..i] == Escape(value[..i])
    modifies w
    ensures ok ==> next <= i + 1 && w.written == base + more && more + value[next..i + 1] == Escape(value[..i + 1])
    ensures !ok ==> Partly(base, w.written, Escape(value))
    ensures w.failures == old(w.failures) + if ok then 0 else 1
  {
    WaitingStep(value, out, start, i);
    var escape := EscapePiece(value[i]);
    if escape == "" {
      return start, true, out;
    }
    var piece := value[start..i] + escape;
    ok := w.Write(piece);
    if ok {
      Associative(base, out, piece);
    } else {
      CutOffPiece(base, out, piece, w.written, Escape(value));
    }
    next, more := if |escape| == 2 then i + 1 else i, out + piece;
  }

  method WriteEscaped(w: Writer, value: string) returns (rest: string, ok: bool)
    modifies w
    ensures if ok then old(w.written) <= w.written && w.written + rest == old(w.written) + Escape(value)
            else Partly(old(w.written), w.written, Escape(value))
    ensures w.failures == old(w.failures) + if ok then 0 else 1
  {
    var start: nat := 0;
    ghost var base, out := w.written, "";
    for i := 0 to |value|
      invariant start <= i && w.written == base + out && w.failures == old(w.failures)
      invariant out + value[start..i] == Escape(value[..i])
    {
      start, ok, out := WriteBefore(w, value, i, start, base, out);
      if !ok {
        return "", false;
      }
    }
    Rejoin(value, start);
    assert value[..|value|] == value;
    Associative(base, out, value[start..]);
    rest, ok := value[start..], true;
  }

  /** The line of one pair. */
  function Line(key: string, value: string): string {
    "\t" + key + " =" + WrittenValue(value)
  }

  lemma WrittenValueIs(value: string, quote: string)
    requires quote == if Quoted(value) then "\"" else ""
    ensures WrittenValue(value) == " " + quote + Escape(value) + (quote + "\n")
  {
    assert " " + "\"" == " \"" && "\"" + "\n" == "\"\n" && " " + "" == " " && "" + "\n" == "\n";
  }

  /** The parts of a line. */
  lemma LineIs(key: string, value: string, quote: string, head: string, tail: string)
    requires quote == if Quoted(value) then "\"" else ""
    requires head == "\t" + key + " =" + (" " + quote) && tail == quote + "\n"
    ensures Line(key, value) == head + Escape(value) + tail
  {
    WrittenValueIs(value, quote);
    Associative("\t" + key + " =", " " + quote, Escape(value));
    Associative("\t" + key + " =", " " + quote + Escape(value), tail);
  }

  /** The line is written, or what a failing writer leaves of it; nothing at all if there is a zero byte. */
  method WriteKeyValuePair(w: Writer, key: string, value: string) returns (ok: bool)
    modifies w
    ensures '\0' in key || '\0' in value ==> !ok && w.written == old(w.written) && w.failures == old(w.failures)
    ensures ok <==> '\0' !in key && '\0' !in value && w.failures == old(w.failures)
    ensures if ok then w.written == old(w.written) + Line(key, value)
            else Partly(old(w.written), w.written, Line(key, value))
  {
    if '\0' in key || '\0' in value {
      return false;
    }
    var quote := "";
    if (value != "" && (value[0] == ' ' || value[|value| - 1] == ' ')) || '#' in value || ':' in value {
      quote := "\"";
    }
    var head, tail := "\t" + key + " =" + (" " + quote), quote + "\n";
    LineIs(key, value, quote, head, tail);
    ok := WriteParts(w, head, value, tail, Line(key, value));
  }

  /** Three parts, of which the middle one is written piece by piece. */
  method WriteParts(w: Writer, head: string, value: string, tail: string, ghost line: string) returns (ok: bool)
    requires line == head + Escape(value) + tail
    modifies w
    ensures if ok then w.written == old(w.written) + line else Partly(old(w.written), w.written, line)
    ensures w.failures == old(w.failures) + if ok then 0 else 1
  {
    ghost var base := w.written;
    ok := w.Write(head);
    if !ok {
      CutOffHead(base, head, w.written, Escape(value) + tail);
      Associative(head, Escape(value), tail);
      return;
    }
    var rest;
    rest, ok := WriteEscaped(w, value);
    if !ok {
      CutOffPiece(base, head, Escape(value), w.written, line);
      return;
    }
    LastPiece(base, head, Escape(value), tail, w.written, rest);
    ok := WriteRest(w, base, line, rest + tail);
  }

  lemma LastPiece(base: string, head: string, escaped: string, tail: string, now: string, rest: string)
    requires now + rest == base + head + escaped
    ensures now + (rest + tail) == base + (head + escaped + tail)
  {
    Associative(now, rest, tail);
    Associative(base, head, escaped);
    Associative(base, head + escaped, tail);
  }

  /** The last piece. */
  method WriteRest(w: Writer, ghost base: string, ghost line: string, rest: string) returns (ok: bool)
    requires base <= w.written && w.written + rest == base + line
    modifies w
    ensures if ok then w.written == base + line else Partly(base, w.written, line)
    ensures w.failures == old(w.failures) + if ok then 0 else 1
  {
    ok := w.Write(rest);
  }

  predicate IsSpace(c: char) {
    c == ' ' || c == '\t' || c == '\n' || c == '\r'
  }

  function Unescape(c: char): Option<char> {
    match c
    case 'n' => Some('\n')
    case 't' => Some('\t')
    case 'b' => Some(8 as char)
    case '"' => Some('"')
    case '\\' => Some('\\')
    case _ => None
  }

  /**
    The "Syntax" section of the git-config manual: quotes toggle, comments start at # or ; outside quotes,
    whitespace is dropped at both ends and kept inside. `acc` is the value so far and `pend` the whitespace
    seen since, which counts only if something follows.
   */
  function ReadValue(s: string, quoted: bool, acc: string, pend: string): Option<string>
    decreases |s|
  {
    if s == "" || s[0] == '\n' then if quoted then None else Some(acc)
    else if !quoted && IsSpace(s[0]) then ReadValue(s[1..], quoted, acc, if acc == "" then "" else pend + [s[0]])
    else if !quoted && (s[0] == ';' || s[0] == '#') then Some(acc)
    else if s[0] == '\\' then
      if |s| < 2 then None
      else if s[1] == '\n' then ReadValue(s[2..], quoted, acc + pend, "")
      else if Unescape(s[1]) == None then None
      else ReadValue(s[2..], quoted, acc + pend + [Unescape(s[1]).value], "")
    else if s[0] == '"' then ReadValue(s[1..], !quoted, acc + pend, "")
    else ReadValue(s[1..], quoted, acc + pend + [s[0]], "")
  }

  lemma {:induction false} ReadQuoted(v: string, acc: string)
    ensures ReadValue(Escape(v) + "\"\n", true, acc, "") == Some(acc + v)
  {
    if v == "" {
      assert ReadValue("\n", false, acc + "", "") == Some(acc + v);
      assert ("" + "\"\n")[1..] == "\n";
    } else {
      var s := Escape(v) + "\"\n";
      assert s == EscapeChar(v[0]) + (Escape(v[1..]) + "\"\n");
      ReadQuoted(v[1..], acc + "" + [v[0]]);
      assert s[|EscapeChar(v[0])|..] == Escape(v[1..]) + "\"\n";
      assert acc + "" + [v[0]] + v[1..] == acc + v;
    }
  }

  /** Reading one written character outside quotes. */
  lemma ReadPlainChar(v: string, acc: string, pend: string)
    requires v != "" && v[0] != ';' && v[0] != '#' && v[0] != '\r'
    ensures ReadValue(Escape(v) + "\n", false, acc, pend) ==
            if v[0] == ' ' then ReadValue(Escape(v[1..]) + "\n", false, acc, if acc == "" then "" else pend + [' '])
            else ReadValue(Escape(v[1..]) + "\n", false, acc + pend + [v[0]], "")
  {
    var s := Escape(v) + "\n";
    assert s == EscapeChar(v[0]) + (Escape(v[1..]) + "\n");
    assert s[|EscapeChar(v[0])|..] == Escape(v[1..]) + "\n";
  }

  lemma {:induction false} ReadPlain(v: string, acc: string, pend: string)
    requires ';' !in v && '#' !in v && '\r' !in v
    requires v != "" ==> v[|v| - 1] != ' ' && (acc != "" || v[0] != ' ')
    requires v == "" ==> pend == ""
    ensures ReadValue(Escape(v) + "\n", false, acc, pend) == Some(acc + pend + v)
  {
    if v == "" {
      assert acc + pend + v == acc;
    } else {
      ReadPlainChar(v, acc, pend);
      if v[0] == ' ' {
        ReadPlain(v[1..], acc, pend + [' ']);
        assert acc + (pend + [' ']) + v[1..] == acc + pend + v;
      } else {
        ReadPlain(v[1..], acc + pend + [v[0]], "");
        assert acc + pend + [v[0]] + "" + v[1..] == acc + pend + v;
      }
    }
  }

  /** Outside quotes a semicolon never becomes part of a value. */
  lemma {:induction false} PlainHasNoSemicolon(v: string, acc: string, pend: string)
    requires ';' !in acc && ';' !in pend && '\r' !in v
    ensures var r := ReadValue(Escape(v) + "\n", false, acc, pend); r.Some? && ';' !in r.value
  {
    if v != "" {
      if v[0] == ';' || v[0] == '#' {
        assert (Escape(v) + "\n")[0] == v[0];
      } else {
        ReadPlainChar(v, acc, pend);
        if v[0] == ' ' {
          PlainHasNoSemicolon(v[1..], acc, if acc == "" then "" else pend + [' ']);
        } else {
          PlainHasNoSemicolon(v[1..], acc + pend + [v[0]], "");
        }
      }
    }
  }

  lemma QuotedRoundTrip(v: string)
    requires Quoted(v)
    ensures ReadValue(WrittenValue(v), false, "", "") == Some(v)
  {
    var inside := Escape(v) + "\"\n";
    WrittenQuoted(v, inside);
    LeadingSpaceIsDropped("\"" + inside);
    OpeningQuote(inside);
    ReadQuoted(v, "");
    assert "" + v == v;
  }

  lemma WrittenQuoted(v: string, inside: string)
    requires Quoted(v) && inside == Escape(v) + "\"\n"
    ensures WrittenValue(v) == " " + ("\"" + inside)
  {
    Associative(" ", "\"", inside);
    Associative(" \"", Escape(v), "\"\n");
    assert " " + "\"" == " \"";
  }

  lemma OpeningQuote(inside: string)
    ensures ReadValue("\"" + inside, false, "", "") == ReadValue(inside, true, "", "")
  {
    var empty := "";
    assert ("\"" + inside)[1..] == inside && empty + empty == empty;
  }

  lemma LeadingSpaceIsDropped(s: string)
    ensures ReadValue(" " + s, false, "", "") == ReadValue(s, false, "", "")
  {
    assert (" " + s)[1..] == s;
  }

  /**
    Round trip. For a value without NUL and CR, git reads back what was written exactly if the value has
    no semicolon or has one of the characters that make the writer quote it.
   */
  lemma ValueRoundTripIff(v: string)
    requires '\0' !in v && '\r' !in v
    ensures ReadValue(WrittenValue(v), false, "", "") == Some(v) <==>
              ';' !in v || '#' in v || ':' in v || v[0] == ' ' || v[|v| - 1] == ' '
  {
    if Quoted(v) {
      QuotedRoundTrip(v);
    } else {
      assert WrittenValue(v) == " " + (Escape(v) + "\n");
      LeadingSpaceIsDropped(Escape(v) + "\n");
      if ';' in v {
        PlainHasNoSemicolon(v, "", "");
      } else {
        ReadPlain(v, "", "");
        assert "" + "" + v == v;
      }
    }
  }

  /** A written value stays on its line: the only raw line feed is the last character. */
  lemma {:induction false} EscapedHasNoNewline(v: string)
    ensures '\n' !in Escape(v)
  {
    if v != "" {
      EscapedHasNoNewline(v[1..]);
    }
  }

  lemma ValueStaysOnItsLine(v: string)
    ensures var s := WrittenValue(v); forall i :: 0 <= i < |s| ==> (s[i] == '\n' <==> i == |s| - 1)
  {
    EscapedHasNoNewline(v);
    var s := WrittenValue(v);
    var front := if Quoted(v) then " \"" + Escape(v) + "\"" else " " + Escape(v);
    assert s == front + "\n";
    assert '\n' !in front;
  }
}
