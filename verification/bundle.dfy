/**
  The bundle format of hw01: crc32sum.c prints one line per file, crc32check.c reads the
  lines back and compares. Text is a sequence of characters; '\0' ends a C string.
 */
module Bundle {
  import opened Machine

  datatype Entry = Entry(hash: nat, name: string)

  const WORD32: nat := 0x1_0000_0000

  // ----- printing

  predicate IsDigit(c: char)
  {
    '0' <= c <= '9' || 'a' <= c <= 'f'
  }

  function DigitChar(d: nat): (c: char)
    requires d < 16
    ensures IsDigit(c)
  {
    if d < 10 then '0' + d as char else 'a' + (d - 10) as char
  }

  /** The last `k` hexadecimal digits of `n`, as %0kx prints them. */
  function Hex(n: nat, k: nat): (s: string)
    ensures |s| == k
    ensures forall i :: 0 <= i < k ==> IsDigit(s[i])
    decreases k
  {
    if k == 0 then "" else Hex(n / 16, k - 1) + [DigitChar(n % 16)]
  }

  /** crc32sum.c, line 44. */
  function PrintLine(e: Entry): (line: string)
  {
    Hex(e.hash, 8) + " " + e.name + "\n"
  }

  function PrintAll(es: seq<Entry>): (text: string)
  {
    if es == [] then "" else PrintLine(es[0]) + PrintAll(es[1..])
  }

  // ----- strtok and getline

  /** The part of a buffer that C string functions see. */
  function CString(s: string): (t: string)
  {
    s[..CSpan(s, {'\0'})]
  }

  /** How many leading characters are in `set`, and how many are not (strspn, strcspn). */
  function Span(s: string, accept: set<char>): (n: nat)
    ensures n <= |s|
  {
    if s == "" || s[0] !in accept then 0 else 1 + Span(s[1..], accept)
  }

  function CSpan(s: string, reject: set<char>): (n: nat)
    ensures n <= |s|
  {
    if s == "" || s[0] in reject then 0 else 1 + CSpan(s[1..], reject)
  }

  /** One strtok call: the next token and where the following call continues. */
  function Token(s: string, delims: set<char>): (r: Option<(string, string)>)
  {
    var t := s[Span(s, delims)..];
    if t == "" then None
    else
      var n := CSpan(t, delims);
      Some((t[..n], if n < |t| then t[n + 1..] else ""))
  }

  /** The next line of getline, with its newline if it has one. */
  function LineLength(text: string): (n: nat)
    requires text != ""
    ensures 0 < n <= |text|
  {
    var n := CSpan(text, {'\n'});
    if n < |text| then n + 1 else n
  }

  function Lines(text: string): (ls: seq<string>)
    decreases |text|
  {
    if text == "" then []
    else
      var n := LineLength(text);
      [text[..n]] + Lines(text[n..])
  }

  // ----- strtoull(..., 16)

  function DigitValue(c: char): (d: Option<nat>)
    ensures d.Some? ==> d.value < 16
  {
    if '0' <= c <= '9' then Some((c - '0') as nat)
    else if 'a' <= c <= 'f' then Some(10 + (c - 'a') as nat)
    else if 'A' <= c <= 'F' then Some(10 + (c - 'A') as nat)
    else None
  }

  /** The value of a string of hexadecimal digits; None if another character occurs. */
  function HexValue(s: string): (v: Option<nat>)
  {
    if s == "" then Some(0)
    else
      var n := |s| - 1;
      match (HexValue(s[..n]), DigitValue(s[n]))
      case (Some(v), Some(d)) => Some(16 * v + d)
      case _ => None
  }

  const SPACES: set<char> := {' ', '\t', '\n', '\r', 0x0B as char, 0x0C as char}

  /** The optional 0x, which counts only when a digit follows. */
  function AfterPrefix(s: string): (t: string)
  {
    if |s| >= 3 && s[0] == '0' && (s[1] == 'x' || s[1] == 'X') && DigitValue(s[2]).Some? then s[2..] else s
  }

  /** The 32-bit result of strtoull: saturated at 2^64 - 1, negated if signed so, then truncated. */
  function Truncated(negative: bool, v: nat): (h: nat)
  {
    if v >= SIZE_MODULUS then (SIZE_MODULUS - 1) % WORD32
    else if negative then (SIZE_MODULUS - v) % WORD32
    else v % WORD32
  }

  /** Past the spaces: sign, prefix, digits, and nothing left over. */
  function ParseNumber(t: string): (h: Option<nat>)
  {
    var signed := t != "" && (t[0] == '-' || t[0] == '+');
    var u := AfterPrefix(if signed then t[1..] else t);
    if u == "" then None
    else
      match HexValue(u)
      case None => None
      case Some(v) => Some(Truncated(signed && t[0] == '-', v))
  }

  /** Line 48: the hash, truncated to 32 bits, or None if characters are left over. */
  function ParseHash(s: string): (h: Option<nat>)
  {
    ParseNumber(s[Span(s, SPACES)..])
  }

  /** Lines 34-52: a line of the bundle, or None for "invalid format" and "invalid hash". */
  function ParseLine(line: string): (e: Option<Entry>)
  {
    match Token(CString(line), {' ', '\n'})
    case None => None
    case Some((crc, rest)) =>
      match Token(rest, {'\n'})
      case None => None
      case Some((name, _)) =>
        match ParseHash(crc)
        case None => None
        case Some(h) => Some(Entry(h, name))
  }

  // ----- checking

  /** What opening and hashing a file gives. */
  datatype FileState = Missing | Unreadable | Hashed(hash: nat)

  datatype Verdict = Ok | Failed | CannotRead

  function Judge(e: Entry, file: FileState): (v: Verdict)
  {
    if !file.Hashed? then CannotRead else if file.hash == e.hash then Ok else Failed
  }

  /** The verdicts on the valid lines, in order, up to the first invalid one. */
  function Verdicts(lines: seq<string>, files: string -> FileState): (vs: seq<(string, Verdict)>)
  {
    if lines == [] then []
    else
      match ParseLine(lines[0])
      case None => []
      case Some(e) => [(e.name, Judge(e, files(e.name)))] + Verdicts(lines[1..], files)
  }

  /** The error count: one per verdict other than Ok, and one for an invalid line. */
  function Errors(lines: seq<string>, files: string -> FileState): (n: nat)
  {
    if lines == [] then 0
    else
      match ParseLine(lines[0])
      case None => 1
      case Some(e) => (if Judge(e, files(e.name)) == Ok then 0 else 1) + Errors(lines[1..], files)
  }

  /** One round of the loop: the first line is taken off and judged. */
  lemma LineStep(rest: string, files: string -> FileState)
    requires rest != ""
    ensures var line, more := rest[..LineLength(rest)], Lines(rest[LineLength(rest)..]);
      match ParseLine(line)
      case None => Errors(Lines(rest), files) == 1 && Verdicts(Lines(rest), files) == []
      case Some(e) =>
        var v := Judge(e, files(e.name));
        Errors(Lines(rest), files) == (if v == Ok then 0 else 1) + Errors(more, files)
        && Verdicts(Lines(rest), files) == [(e.name, v)] + Verdicts(more, files)
  {
    hide ParseLine, LineLength, Judge;
    var line, more := rest[..LineLength(rest)], Lines(rest[LineLength(rest)..]);
    assert Lines(rest) == [line] + more;
    assert ([line] + more)[1..] == more;
  }

  /** process_bundle, lines 30-80, over the text of the bundle. */
  method ProcessBundle(text: string, files: string -> FileState)
    returns (errors: nat, verdicts: seq<(string, Verdict)>)
    ensures errors == Errors(Lines(text), files)
    ensures verdicts == Verdicts(Lines(text), files)
  {
    hide ParseLine, LineLength, Lines, Errors, Verdicts;
    errors, verdicts := 0, [];
    var rest := text;
    while rest != ""
      invariant errors + Errors(Lines(rest), files) == Errors(Lines(text), files)
      invariant verdicts + Verdicts(Lines(rest), files) == Verdicts(Lines(text), files)
      decreases |rest|
    {
      LineStep(rest, files);
      ghost var before := verdicts;
      var n := LineLength(rest);
      var parsed := ParseLine(rest[..n]);
      if parsed.None? {
        errors := errors + 1;
        return;
      }
      var e := parsed.value;
      match files(e.name) {
        case Hashed(h) =>
          if h == e.hash {
            verdicts := verdicts + [(e.name, Ok)];
          } else {
            verdicts := verdicts + [(e.name, Failed)];
            errors := errors + 1;
          }
        case _ =>
          verdicts := verdicts + [(e.name, CannotRead)];
          errors := errors + 1;
      }
      rest := rest[n..];
      assert verdicts == before + [(e.name, Judge(e, files(e.name)))];
      assert verdicts + Verdicts(Lines(rest), files)
          == before + ([(e.name, Judge(e, files(e.name)))] + Verdicts(Lines(rest), files));
    }
    NoLines(files);
  }

  lemma NoLines(files: string -> FileState)
    ensures Errors(Lines(""), files) == 0 && Verdicts(Lines(""), files) == []
  {
  }

  /** crc32sum.c main, lines 26-55: files that cannot be read contribute no line. */
  method PrintSums(names: seq<string>, files: string -> FileState) returns (text: string)
    ensures text == PrintAll(Summed(names, files))
  {
    text := "";
    assert PrintAll([]) == "";
    hide PrintLine, PrintAll;
    for i := 0 to |names|
      invariant text == PrintAll(Summed(names[..i], files))
    {
      assert names[..i + 1][..i] == names[..i];
      var state := files(names[i]);
      ghost var done := Summed(names[..i], files);
      assert Summed(names[..i + 1], files)
          == done + (if state.Hashed? then [Entry(state.hash, names[i])] else []);
      if state.Hashed? {
        assert text == PrintAll(done);
        PrintOneMore(done, Entry(state.hash, names[i]));
        text := text + PrintLine(Entry(state.hash, names[i]));
      } else {
        assert done + [] == done;
      }
    }
    assert names[..|names|] == names;
  }

  /** The entries of the files that could be read, in the order given. */
  function Summed(names: seq<string>, files: string -> FileState): (es: seq<Entry>)
  {
    if names == [] then []
    else
      var n := |names| - 1;
      Summed(names[..n], files)
      + (match files(names[n]) case Hashed(h) => [Entry(h, names[n])] case _ => [])
  }

  lemma {:induction false} PrintOneMore(a: seq<Entry>, e: Entry)
    ensures PrintAll(a + [e]) == PrintAll(a) + PrintLine(e)
  {
    hide PrintLine;
    if a == [] {
      assert PrintAll([e]) == PrintLine(e) + PrintAll([]);
    } else {
      assert (a + [e])[1..] == a[1..] + [e];
      PrintOneMore(a[1..], e);
    }
  }

  // ----- what strtok and strtoull accept, exactly

  predicate AllIn(s: string, cs: set<char>)
  {
    forall i :: 0 <= i < |s| ==> s[i] in cs
  }

  predicate NoneIn(s: string, cs: set<char>)
  {
    forall i :: 0 <= i < |s| ==> s[i] !in cs
  }

  lemma {:induction false} SpanStops(s: string, accept: set<char>)
    ensures var n := Span(s, accept);
      AllIn(s[..n], accept) && (n < |s| ==> s[n] !in accept)
  {
    if s != "" && s[0] in accept {
      SpanStops(s[1..], accept);
      assert s[..Span(s, accept)] == [s[0]] + s[1..][..Span(s[1..], accept)];
    }
  }

  lemma {:induction false} CSpanStops(s: string, reject: set<char>)
    ensures var n := CSpan(s, reject);
      NoneIn(s[..n], reject) && (n < |s| ==> s[n] in reject)
  {
    if s != "" && s[0] !in reject {
      CSpanStops(s[1..], reject);
      assert s[..CSpan(s, reject)] == [s[0]] + s[1..][..CSpan(s[1..], reject)];
    }
  }

  /** The shape of a buffer around its first token. */
  ghost predicate Splits(s: string, delims: set<char>, lead: string, word: string, rest: string)
  {
    && AllIn(lead, delims) && word != "" && NoneIn(word, delims)
    && ((s == lead + word && rest == "")
        || exists d :: d in delims && s == lead + word + [d] + rest)
  }

  /** A token is the first longest run of non-delimiters; there is none exactly in a buffer of delimiters. */
  lemma TokenExactly(s: string, delims: set<char>)
    ensures match Token(s, delims)
      case None => AllIn(s, delims)
      case Some((word, rest)) => exists lead :: Splits(s, delims, lead, word, rest)
    ensures AllIn(s, delims) ==> Token(s, delims) == None
  {
    hide Span, CSpan;
    var k := Span(s, delims);
    SpanStops(s, delims);
    var t := s[k..];
    if t == "" {
      assert s[..k] == s;
    } else {
      var n := CSpan(t, delims);
      CSpanStops(t, delims);
      assert s == s[..k] + t && t[0] !in delims && t[0] == s[k];
      var rest := if n < |t| then t[n + 1..] else "";
      if n < |t| {
        assert s == s[..k] + t[..n] + [t[n]] + rest;
      } else {
        assert s == s[..k] + t[..n];
      }
      assert Splits(s, delims, s[..k], t[..n], rest);
    }
  }

  /** [space...][sign][0x]digits */
  ghost predicate HashText(s: string, space: string, sign: string, prefix: string, digits: string)
  {
    && s == space + sign + prefix + digits
    && AllIn(space, SPACES)
    && (sign == "" || sign == "+" || sign == "-")
    && (prefix == "" || prefix == "0x" || prefix == "0X")
    && digits != "" && HexValue(digits).Some?
  }

  lemma {:induction false} EveryDigit(s: string, k: nat)
    requires HexValue(s).Some? && k < |s|
    ensures DigitValue(s[k]).Some?
  {
    if k < |s| - 1 { EveryDigit(s[..|s| - 1], k); }
  }

  lemma {:induction false} SpanAt(s: string, k: nat, accept: set<char>)
    requires k <= |s| && AllIn(s[..k], accept) && (k < |s| ==> s[k] !in accept)
    ensures Span(s, accept) == k
  {
    if k > 0 {
      assert s[0] == s[..k][0];
      assert s[1..][..k - 1] == s[..k][1..];
      SpanAt(s[1..], k - 1, accept);
    }
  }

  lemma NotSpace(c: char)
    requires c == '+' || c == '-' || DigitValue(c).Some?
    ensures c !in SPACES
  {
  }

  /** Negation and truncation agree with arithmetic modulo 2^32. */
  lemma TruncatedIsModular(negative: bool, v: nat)
    requires v < SIZE_MODULUS
    ensures Truncated(negative, v) == (if negative then 0 - v else v) % WORD32
    ensures forall w: nat :: w >= SIZE_MODULUS ==> Truncated(negative, w) == WORD32 - 1
  {
    assert SIZE_MODULUS == WORD32 * WORD32;
    ModUnique(SIZE_MODULUS - v, (0 - v) % WORD32, WORD32 + (0 - v) / WORD32, WORD32);
  }

  /** The optional 0x is dropped exactly where a number follows it. */
  lemma PrefixDropped(prefix: string, digits: string)
    requires (prefix == "" || prefix == "0x" || prefix == "0X") && digits != "" && HexValue(digits).Some?
    ensures AfterPrefix(prefix + digits) == digits
  {
    hide HexValue;
    EveryDigit(digits, 0);
    if prefix == "" {
      assert prefix + digits == digits;
      if |digits| > 1 { EveryDigit(digits, 1); }
    } else {
      assert (prefix + digits)[2] == digits[0] && (prefix + digits)[2..] == digits;
    }
  }

  lemma NumberTextIsRead(sign: string, prefix: string, digits: string)
    requires HashText(sign + prefix + digits, "", sign, prefix, digits)
    ensures ParseNumber(sign + prefix + digits) == Some(Truncated(sign == "-", HexValue(digits).value))
  {
    hide HexValue, Truncated, AfterPrefix;
    var t := sign + prefix + digits;
    PrefixDropped(prefix, digits);
    EveryDigit(digits, 0);
    FirstOfNumber(sign, prefix, digits);
    if sign == "" {
      assert t == prefix + digits;
    } else {
      assert t[1..] == prefix + digits;
    }
  }

  /** Every such text is read as its number, modulo 2^32 and negated if it has a minus ... */
  lemma HashTextIsRead(s: string, space: string, sign: string, prefix: string, digits: string)
    requires HashText(s, space, sign, prefix, digits)
    ensures ParseHash(s) == Some(Truncated(sign == "-", HexValue(digits).value))
  {
    hide HexValue, Span, Truncated, ParseNumber;
    var t := sign + prefix + digits;
    assert "" + sign + prefix + digits == t;
    NumberTextIsRead(sign, prefix, digits);
    EveryDigit(digits, 0);
    FirstOfNumber(sign, prefix, digits);
    NotSpace(t[0]);
    AfterSpaces(s, space, t);
  }

  lemma AfterSpaces(s: string, space: string, t: string)
    requires s == space + t && AllIn(space, SPACES) && t != "" && t[0] !in SPACES
    ensures s[Span(s, SPACES)..] == t
  {
    hide Span;
    assert s[..|space|] == space && s[|space|..] == t && s[|space|] == t[0];
    SpanAt(s, |space|, SPACES);
  }

  /** A number starts with its sign, or with a digit that is neither sign. */
  lemma FirstOfNumber(sign: string, prefix: string, digits: string)
    requires (sign == "" || sign == "+" || sign == "-") && (prefix == "" || prefix == "0x" || prefix == "0X")
    requires digits != "" && DigitValue(digits[0]).Some?
    ensures var c := (sign + prefix + digits)[0];
      if sign == "" then DigitValue(c).Some? && c != '+' && c != '-' else c == sign[0]
  {
    var t := sign + prefix + digits;
    if sign == "" {
      assert t[0] == if prefix == "" then digits[0] else '0';
    } else {
      assert t[0] == sign[0];
    }
  }

  lemma OnlyNumberTextIsRead(t: string) returns (sign: string, prefix: string, digits: string)
    requires ParseNumber(t).Some?
    ensures HashText(t, "", sign, prefix, digits)
  {
    hide HexValue, Truncated, AfterPrefix;
    var w;
    sign, w := SignOf(t);
    digits := AfterPrefix(w);
    assert digits != "" && HexValue(digits).Some?;
    hide ParseNumber;
    prefix := PrefixOf(w);
    assert t == sign + w == "" + sign + prefix + digits;
  }

  lemma SignOf(t: string) returns (sign: string, w: string)
    ensures t == sign + w && (sign == "" || sign == "+" || sign == "-")
    ensures w == if t != "" && (t[0] == '-' || t[0] == '+') then t[1..] else t
  {
    if t != "" && (t[0] == '-' || t[0] == '+') {
      sign, w := [t[0]], t[1..];
    } else {
      sign, w := "", t;
    }
  }

  /** What AfterPrefix leaves off. */
  lemma PrefixOf(w: string) returns (prefix: string)
    ensures w == prefix + AfterPrefix(w)
    ensures prefix == "" || prefix == "0x" || prefix == "0X"
  {
    if AfterPrefix(w) == w {
      prefix := "";
    } else {
      prefix := w[..2];
      assert prefix == [w[0], w[1]];
      assert w == w[..2] + w[2..];
    }
  }

  /** ... and nothing else is accepted. */
  lemma OnlyHashTextIsRead(s: string) returns (space: string, sign: string, prefix: string, digits: string)
    requires ParseHash(s).Some?
    ensures HashText(s, space, sign, prefix, digits)
  {
    hide HexValue, Span, ParseNumber;
    space := s[..Span(s, SPACES)];
    SpanStops(s, SPACES);
    sign, prefix, digits := OnlyNumberTextIsRead(s[Span(s, SPACES)..]);
    assert s == space + ("" + sign + prefix + digits) == space + sign + prefix + digits;
  }

  /** A digit in either case, and nothing else, has a value. */
  lemma DigitsExactly(c: char, d: nat)
    requires d < 16
    ensures DigitValue(c) == Some(d) <==> c == "0123456789abcdef"[d] || c == "0123456789ABCDEF"[d]
  {
  }

  /** Tokens are determined by their shape, so TokenExactly says all there is to say. */
  lemma TokenOfSplit(s: string, delims: set<char>, lead: string, word: string, rest: string)
    requires Splits(s, delims, lead, word, rest)
    ensures Token(s, delims) == Some((word, rest))
  {
    hide Span, CSpan;
    var tail := s[|lead| + |word|..];
    assert tail == "" || tail[0] in delims by {
      if !(s == lead + word && rest == "") {
        var d :| d in delims && s == lead + word + [d] + rest;
        assert tail == [d] + rest;
      }
    }
    assert s == lead + (word + tail);
    assert s[..|lead|] == lead && s[|lead|] == word[0];
    SpanAt(s, |lead|, delims);
    var t := s[|lead|..];
    assert t == word + tail;
    CSpanAt(t, |word|, delims);
    assert t[..|word|] == word;
    assert tail != "" ==> t[|word| + 1..] == tail[1..];
    if tail == "" { assert s == lead + word; }
    RestOfSplit(s, delims, lead, word, rest, tail);
  }

  lemma RestOfSplit(s: string, delims: set<char>, lead: string, word: string, rest: string, tail: string)
    requires Splits(s, delims, lead, word, rest) && s == lead + (word + tail)
    ensures rest == if tail == "" then "" else tail[1..]
  {
    var n := |lead| + |word|;
    assert s[n..] == tail;
    if s == lead + word && rest == "" {
      assert s[n..] == "";
    } else {
      var d :| d in delims && s == lead + word + [d] + rest;
      assert s[n..] == [d] + rest;
    }
  }

  /** The two tokens of a line, as a shape. */
  ghost predicate LineText(s: string, hash: string, name: string)
  {
    exists lead, rest, more, after ::
      Splits(s, {' ', '\n'}, lead, hash, rest) && Splits(rest, {'\n'}, more, name, after)
  }

  /**
    A line is read as an entry exactly when the part of it before the first '\0' has a first word
    that is a hash, and behind the character that ends the word a part of a line for the name.
   */
  lemma ParseLineExactly(line: string, e: Entry)
    ensures ParseLine(line) == Some(e)
            <==> exists hash :: LineText(CString(line), hash, e.name) && ParseHash(hash) == Some(e.hash)
  {
    hide Token, ParseHash, CString, Splits;
    var s := CString(line);
    TokenExactly(s, {' ', '\n'});
    if Token(s, {' ', '\n'}).Some? {
      var (hash, rest) := Token(s, {' ', '\n'}).value;
      TokenExactly(rest, {'\n'});
    }
    forall hash: string | LineText(s, hash, e.name)
      ensures Token(s, {' ', '\n'}).Some? && Token(s, {' ', '\n'}).value.0 == hash
      ensures var t := Token(Token(s, {' ', '\n'}).value.1, {'\n'}); t.Some? && t.value.0 == e.name
    {
      var lead, rest, more, after :|
        Splits(s, {' ', '\n'}, lead, hash, rest) && Splits(rest, {'\n'}, more, e.name, after);
      TokenOfSplit(s, {' ', '\n'}, lead, hash, rest);
      TokenOfSplit(rest, {'\n'}, more, e.name, after);
    }
  }

  /** What C functions see of a buffer: everything before the first '\0'. */
  lemma CStringExactly(s: string, t: string)
    requires '\0' !in s
    ensures CString(s) == s && CString(s + "\0" + t) == s
  {
    CSpanAt(s, |s|, {'\0'});
    var b := s + "\0" + t;
    assert b[|s|] == '\0' && b[..|s|] == s;
    CSpanAt(b, |s|, {'\0'});
  }

  // ----- lines and verdicts of any text

  function Join(ls: seq<string>): (text: string)
  {
    if ls == [] then "" else ls[0] + Join(ls[1..])
  }

  /** No newline but at the end, and one there unless it is the last line; never empty. */
  predicate IsLine(l: string, last: bool)
  {
    && l != ""
    && (forall i :: 0 <= i < |l| - 1 ==> l[i] != '\n')
    && (last || l[|l| - 1] == '\n')
  }

  predicate AreLines(ls: seq<string>)
  {
    forall k :: 0 <= k < |ls| ==> IsLine(ls[k], k == |ls| - 1)
  }

  lemma OneMoreLine(l: string, ls: seq<string>)
    requires AreLines(ls) && IsLine(l, ls == [])
    ensures AreLines([l] + ls) && Join([l] + ls) == l + Join(ls)
  {
    hide IsLine;
    assert ([l] + ls)[1..] == ls;
  }

  /** getline cuts any text, with or without a final newline, into its lines and loses nothing. */
  lemma {:induction false} LinesExactly(text: string)
    ensures Join(Lines(text)) == text && AreLines(Lines(text))
    decreases |text|
  {
    if text != "" {
      hide IsLine, AreLines, Join;
      var n := LineLength(text);
      var more := text[n..];
      LinesExactly(more);
      LinesUnfold(text);
      FirstIsLine(text);
      LinesOfNothing(more);
      hide LineLength, Lines;
      OneMoreLine(text[..n], Lines(more));
      assert text == text[..n] + more;
    }
  }

  lemma FirstIsLine(text: string)
    requires text != ""
    ensures IsLine(text[..LineLength(text)], text[LineLength(text)..] == "")
  {
    hide CSpan;
    var n := CSpan(text, {'\n'});
    CSpanStops(text, {'\n'});
    assert forall i :: 0 <= i < n ==> text[i] == text[..n][i];
  }

  lemma LinesOfNothing(text: string)
    ensures Lines(text) == [] <==> text == ""
  {
  }

  predicate NotOk(v: (string, Verdict))
  {
    v.1 != Ok
  }

  /** Up to the first invalid line every line gets its verdict; the invalid one counts as one error more. */
  lemma {:induction false} StopsAtInvalid(lines: seq<string>, files: string -> FileState) returns (k: nat)
    ensures k <= |lines| && (k < |lines| ==> ParseLine(lines[k]) == None)
    ensures |Verdicts(lines, files)| == k
    ensures forall i :: 0 <= i < k ==>
      match ParseLine(lines[i])
      case None => false
      case Some(e) => Verdicts(lines, files)[i] == (e.name, Judge(e, files(e.name)))
    ensures Errors(lines, files) == Count(Verdicts(lines, files), NotOk) + (if k < |lines| then 1 else 0)
  {
    hide ParseLine, Judge;
    k := 0;
    if lines != [] && ParseLine(lines[0]).Some? {
      var j := StopsAtInvalid(lines[1..], files);
      k := j + 1;
      var e := ParseLine(lines[0]).value;
      CountCons((e.name, Judge(e, files(e.name))), Verdicts(lines[1..], files), NotOk);
      forall i | 0 <= i < k
        ensures match ParseLine(lines[i])
          case None => false
          case Some(e) => Verdicts(lines, files)[i] == (e.name, Judge(e, files(e.name)))
      {
        if i > 0 { assert lines[i] == lines[1..][i - 1]; }
      }
    }
  }

  // ----- one line of the round trip

  /** A file name the format can carry. A C string has no '\0' to begin with. */
  predicate GoodName(name: string)
  {
    name != "" && '\n' !in name && '\0' !in name
  }

  predicate GoodEntry(e: Entry)
  {
    GoodName(e.name) && e.hash < WORD32
  }

  lemma {:induction false} CSpanAt(s: string, k: nat, reject: set<char>)
    requires k <= |s| && (forall i :: 0 <= i < k ==> s[i] !in reject) && (k < |s| ==> s[k] in reject)
    ensures CSpan(s, reject) == k
  {
    if k > 0 { CSpanAt(s[1..], k - 1, reject); }
  }

  lemma {:induction false} HexValueOfHex(n: nat, k: nat)
    requires n < Pow16(k)
    ensures HexValue(Hex(n, k)) == Some(n)
    decreases k
  {
    if k > 0 {
      HexValueOfHex(n / 16, k - 1);
      assert Hex(n, k)[..k - 1] == Hex(n / 16, k - 1);
      assert DigitValue(DigitChar(n % 16)) == Some(n % 16);
    }
  }

  function Pow16(k: nat): (p: nat)
  {
    if k == 0 then 1 else 16 * Pow16(k - 1)
  }

  lemma ParsePrintedHash(n: nat)
    requires n < WORD32
    ensures ParseHash(Hex(n, 8)) == Some(n)
  {
    hide Hex, HexValue, ParseHash;
    Pow16Eight();
    HexValueOfHex(n, 8);
    HashTextIsRead(Hex(n, 8), "", "", "", Hex(n, 8));
  }

  lemma Pow16Eight()
    ensures Pow16(8) == WORD32
  {
    assert Pow16(4) == 65536 && Pow16(8) == 65536 * Pow16(4);
  }

  /** A token that starts at once and ends at the delimiter after it. */
  lemma TokenAt(word: string, d: char, rest: string, delims: set<char>)
    requires word != "" && d in delims && forall i :: 0 <= i < |word| ==> word[i] !in delims
    ensures Token(word + [d] + rest, delims) == Some((word, rest))
  {
    var s := word + [d] + rest;
    assert s[0] == word[0] && Span(s, delims) == 0;
    CSpanAt(s, |word|, delims);
    hide Span, CSpan;
    assert s[0..] == s && s[..|word|] == word && s[|word| + 1..] == rest;
  }

  lemma DigitsArePlain(s: string)
    requires forall i :: 0 <= i < |s| ==> IsDigit(s[i])
    ensures forall i :: 0 <= i < |s| ==> s[i] != ' ' && s[i] != '\n' && s[i] != '\0'
  {
    forall i | 0 <= i < |s| ensures s[i] != ' ' && s[i] != '\n' && s[i] != '\0' {
      assert IsDigit(s[i]);
    }
  }

  lemma NoNul(e: Entry)
    requires '\0' !in e.name
    ensures CString(PrintLine(e)) == PrintLine(e)
  {
    hide Hex, CSpan;
    DigitsArePlain(Hex(e.hash, 8));
    CSpanAt(PrintLine(e), |PrintLine(e)|, {'\0'});
  }

  /** The first token of a printed line is its eight digits. */
  lemma FirstToken(e: Entry)
    ensures Token(PrintLine(e), {' ', '\n'}) == Some((Hex(e.hash, 8), e.name + "\n"))
  {
    hide Hex, Token;
    var digits := Hex(e.hash, 8);
    DigitsArePlain(digits);
    assert PrintLine(e) == digits + [' '] + (e.name + "\n");
    TokenAt(digits, ' ', e.name + "\n", {' ', '\n'});
  }

  /** The second is the name, whatever spaces it holds; an empty name gives none. */
  lemma SecondToken(name: string)
    requires '\n' !in name
    ensures Token(name + "\n", {'\n'}) == if name == "" then None else Some((name, ""))
  {
    if name != "" {
      hide Token;
      assert name + "\n" == name + ['\n'] + "";
      TokenAt(name, '\n', "", {'\n'});
    } else {
      assert Span("\n", {'\n'}) == 1 + Span("\n"[1..], {'\n'});
    }
  }

  /** A line printed for a name without newline reads back exactly when the name is not empty. */
  lemma ParsePrintedLine(e: Entry)
    requires e.hash < WORD32 && '\0' !in e.name && '\n' !in e.name
    ensures ParseLine(PrintLine(e)) == if e.name == "" then None else Some(e)
  {
    hide Hex, Token, CString, PrintLine, ParseHash;
    NoNul(e);
    FirstToken(e);
    SecondToken(e.name);
    ParsePrintedHash(e.hash);
  }

  /** The first line of a text that begins with an entry whose name has no newline. */
  lemma FirstLine(e: Entry, rest: string)
    requires '\n' !in e.name
    ensures LineLength(PrintLine(e) + rest) == |PrintLine(e)|
  {
    hide Hex, CSpan;
    var text := PrintLine(e) + rest;
    DigitsArePlain(Hex(e.hash, 8));
    CSpanAt(text, |PrintLine(e)| - 1, {'\n'});
  }

  // ----- the whole bundle

  predicate GoodEntries(es: seq<Entry>)
  {
    forall k :: 0 <= k < |es| ==> GoodEntry(es[k])
  }

  function PrintedLines(es: seq<Entry>): (ls: seq<string>)
  {
    if es == [] then [] else [PrintLine(es[0])] + PrintedLines(es[1..])
  }

  lemma {:induction false} LinesOfPrint(es: seq<Entry>)
    requires GoodEntries(es)
    ensures Lines(PrintAll(es)) == PrintedLines(es)
  {
    hide Hex, LineLength;
    if es != [] {
      var line, more := PrintLine(es[0]), PrintAll(es[1..]);
      assert GoodEntry(es[0]);
      FirstLine(es[0], more);
      LinesOfPrint(es[1..]);
      assert PrintAll(es) == line + more;
      assert (line + more)[..|line|] == line && (line + more)[|line|..] == more;
    }
  }

  /** Every line of a text parsed, in order. */
  function ParseAll(lines: seq<string>): (es: Option<seq<Entry>>)
  {
    if lines == [] then Some([])
    else
      match (ParseLine(lines[0]), ParseAll(lines[1..]))
      case (Some(e), Some(es)) => Some([e] + es)
      case _ => None
  }

  /**
    Round trip: printing a bundle and reading it line by line gives the same list of hashes
    and names in the same order, whatever spaces the names contain.
   */
  lemma RoundTrip(es: seq<Entry>)
    requires GoodEntries(es)
    ensures ParseAll(Lines(PrintAll(es))) == Some(es)
  {
    hide *;
    LinesOfPrint(es);
    ParsePrintedLines(es);
  }

  lemma {:induction false} ParsePrintedLines(es: seq<Entry>)
    requires GoodEntries(es)
    ensures ParseAll(PrintedLines(es)) == Some(es)
  {
    hide PrintLine, ParseLine;
    if es != [] {
      assert GoodEntry(es[0]);
      ParsePrintedLine(es[0]);
      ParsePrintedLines(es[1..]);
      assert es == [es[0]] + es[1..];
      assert PrintedLines(es)[1..] == PrintedLines(es[1..]);
    }
  }

  /** What checking a printed bundle must report, entry by entry. */
  function Expected(es: seq<Entry>, files: string -> FileState): (vs: seq<(string, Verdict)>)
  {
    seq(|es|, k requires 0 <= k < |es| => (es[k].name, Judge(es[k], files(es[k].name))))
  }

  /** How many entries name a file that does not hash to the recorded value. */
  function Mismatches(es: seq<Entry>, files: string -> FileState): (n: nat)
  {
    if es == [] then 0
    else (if files(es[0].name) == Hashed(es[0].hash) then 0 else 1) + Mismatches(es[1..], files)
  }

  lemma {:induction false} CheckPrintedLines(es: seq<Entry>, files: string -> FileState)
    requires GoodEntries(es)
    ensures Verdicts(PrintedLines(es), files) == Expected(es, files)
    ensures Errors(PrintedLines(es), files) == Mismatches(es, files)
  {
    hide PrintLine, ParseLine;
    if es != [] {
      var e := es[0];
      assert GoodEntry(e);
      ParsePrintedLine(e);
      CheckPrintedLines(es[1..], files);
      assert PrintedLines(es)[1..] == PrintedLines(es[1..]);
      assert Expected(es, files) == [(e.name, Judge(e, files(e.name)))] + Expected(es[1..], files);
    }
  }

  lemma {:induction false} NoMismatch(es: seq<Entry>, files: string -> FileState)
    ensures Mismatches(es, files) == 0
       <==> forall k :: 0 <= k < |es| ==> files(es[k].name) == Hashed(es[k].hash)
  {
    if es != [] {
      NoMismatch(es[1..], files);
      assert forall k :: 1 <= k < |es| ==> es[k] == es[1..][k - 1];
    }
  }

  /**
    crc32check on a bundle written by crc32sum judges every entry, in order, and counts
    exactly the files that do not have the recorded hash; it reports no error if and only if
    every file named has its recorded hash.
   */
  lemma CheckOfSum(es: seq<Entry>, files: string -> FileState)
    requires GoodEntries(es)
    ensures Verdicts(Lines(PrintAll(es)), files) == Expected(es, files)
    ensures Errors(Lines(PrintAll(es)), files) == Mismatches(es, files)
    ensures Errors(Lines(PrintAll(es)), files) == 0
       <==> forall k :: 0 <= k < |es| ==> files(es[k].name) == Hashed(es[k].hash)
  {
    hide *;
    LinesOfPrint(es);
    CheckPrintedLines(es, files);
    NoMismatch(es, files);
  }

  // ----- exactly which names survive

  /** The line getline returns first for an entry whose name holds a newline ends there. */
  lemma CutAtNewline(e: Entry, k: nat, rest: string)
    requires k < |e.name| && e.name[k] == '\n' && '\n' !in e.name[..k]
    ensures var text := PrintLine(e) + rest;
      text[..LineLength(text)] == PrintLine(Entry(e.hash, e.name[..k]))
  {
    hide LineLength, Hex;
    var cut := Entry(e.hash, e.name[..k]);
    var more := e.name[k + 1..] + "\n" + rest;
    var text := PrintLine(e) + rest;
    assert e.name == e.name[..k] + ['\n'] + e.name[k + 1..];
    assert text == PrintLine(cut) + more;
    FirstLine(cut, more);
  }

  lemma FirstNewline(s: string) returns (k: nat)
    requires '\n' in s
    ensures k < |s| && s[k] == '\n' && '\n' !in s[..k]
  {
    k := 0;
    while s[k] != '\n'
      invariant k < |s| && '\n' !in s[..k] && '\n' in s[k..]
      decreases |s| - k
    {
      k := k + 1;
    }
  }

  /**
    For a name that is a C string, the first line read back from a printed entry is that
    entry if and only if the name is neither empty nor cut by a newline. What is read when it
    is cut is the part before the newline, so the checker opens another file.
   */
  lemma ReadsBackExactly(e: Entry, rest: string)
    requires e.hash < WORD32 && '\0' !in e.name
    ensures var text := PrintLine(e) + rest;
      text != "" && (ParseLine(text[..LineLength(text)]) == Some(e) <==> GoodName(e.name))
  {
    hide LineLength, Hex, ParseLine;
    var text := PrintLine(e) + rest;
    if '\n' in e.name {
      var k := FirstNewline(e.name);
      CutAtNewline(e, k, rest);
      ParsePrintedLine(Entry(e.hash, e.name[..k]));
      assert |e.name[..k]| < |e.name|;
    } else {
      FirstLine(e, rest);
      ParsePrintedLine(e);
      assert text[..|PrintLine(e)|] == PrintLine(e);
    }
  }

  /** One entry of the list against one line of the text. */
  lemma RoundTripStep(es: seq<Entry>)
    requires es != [] && es[0].hash < WORD32 && '\0' !in es[0].name
    ensures ParseAll(Lines(PrintAll(es))) == Some(es)
            <==> GoodName(es[0].name) && ParseAll(Lines(PrintAll(es[1..]))) == Some(es[1..])
  {
    hide LineLength, Hex, ParseLine, GoodName, Lines;
    var e, more := es[0], PrintAll(es[1..]);
    var text := PrintLine(e) + more;
    assert PrintAll(es) == text;
    ReadsBackExactly(e, more);
    LinesUnfold(text);
    var n := LineLength(text);
    assert es == [e] + es[1..];
    assert ([text[..n]] + Lines(text[n..]))[1..] == Lines(text[n..]);
    if GoodName(e.name) {
      NameHasNoNewline(e.name);
      FirstLine(e, more);
      assert text[..n] == PrintLine(e) && text[n..] == more;
    }
  }

  lemma LinesUnfold(text: string)
    requires text != ""
    ensures Lines(text) == [text[..LineLength(text)]] + Lines(text[LineLength(text)..])
  {
    hide LineLength;
  }

  lemma NameHasNoNewline(name: string)
    requires GoodName(name)
    ensures '\n' !in name
  {
  }

  /**
    The whole bundle: for 32-bit hashes and names that are C strings, printing and reading line
    by line gives back the same list if and only if no name is empty or holds a newline.
   */
  lemma {:induction false} RoundTripExactly(es: seq<Entry>)
    requires forall k :: 0 <= k < |es| ==> es[k].hash < WORD32 && '\0' !in es[k].name
    ensures ParseAll(Lines(PrintAll(es))) == Some(es) <==> GoodEntries(es)
  {
    if es != [] {
      hide ParseAll, Lines, PrintAll, GoodEntries, GoodName;
      RoundTripStep(es);
      RoundTripExactly(es[1..]);
      FirstAndRest(es);
    }
  }

  lemma FirstAndRest(es: seq<Entry>)
    requires es != []
    ensures GoodEntries(es) <==> GoodEntry(es[0]) && GoodEntries(es[1..])
  {
    hide GoodEntry;
    assert forall k :: 1 <= k < |es| ==> es[k] == es[1..][k - 1];
  }
}
