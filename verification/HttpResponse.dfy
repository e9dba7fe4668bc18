/** `HttpResponse`: the serialized response, and a reader after sections 3.1.2, 3.2 and
    3.3.3 of RFC 7230. */
module HttpResponses {
  import opened Decimal
  import opened Strings
  import opened HttpText

  /** The conversion of a size to the `int` parameter of `buildResponseHeader`. */
  function ToInt32(n: int): int { (n + 0x8000_0000) % 0x1_0000_0000 - 0x8000_0000 }

  /** The parts of the response object that end up in the head; maps as their entries in
      iteration order. */
  datatype Fields = Fields(cookies: seq<(string, string)>, keepAlive: bool, headers: seq<(string, string)>)

  function TopLines(code: int, text: string, kind: string, length: int): seq<string> {
    [ "HTTP/1.1 " + ToString(code) + " " + text, "Content-Type: " + kind, "Content-Length: " + ToString(length) ]
  }

  function ModeLines(keepAlive: bool): seq<string> {
    if keepAlive then ["Connection: keep-alive", "Keep-Alive: timeout=5"] else ["Connection: close"]
  }

  /** The lines of the head, without their line ends. */
  function HeadLines(f: Fields, code: int, text: string, kind: string, length: int,
                     extra: seq<(string, string)>): seq<string> {
    TopLines(code, text, kind, length) + CookieLines(f.cookies) + ModeLines(f.keepAlive)
    + FieldLines(f.headers) + FieldLines(extra)
  }

  function CookieLines(cookies: seq<(string, string)>): seq<string> {
    if cookies == [] then []
    else
      var c := cookies[|cookies| - 1];
      CookieLines(cookies[..|cookies| - 1]) + ["Set-Cookie: " + c.0 + "=" + c.1 + "; Path=/; Max-Age=1800"]
  }

  function FieldLines(fields: seq<(string, string)>): seq<string> {
    if fields == [] then []
    else
      var h := fields[|fields| - 1];
      FieldLines(fields[..|fields| - 1]) + [h.0 + ": " + h.1]
  }

  function Join(lines: seq<string>): string {
    if lines == [] then "" else Join(lines[..|lines| - 1]) + (lines[|lines| - 1] + "\r\n")
  }

  /** `buildResponseHeader` followed by the body. */
  function Serialize(f: Fields, code: int, text: string, kind: string, body: string): string {
    Join(HeadLines(f, code, text, kind, ToInt32(|body|), [])) + "\r\n" + body
  }

  function SendJson(f: Fields, code: int, json: string): string {
    Serialize(f, code, "OK", "application/json", json)
  }

  function Page(code: int, title: string, message: string): string {
    "<html><head><title>" + title + "</title></head>"
    + "<body><h1>" + ToString(code) + " " + title + "</h1>"
    + "<p>" + message + "</p></body></html>"
  }

  function SendText(f: Fields, code: int, title: string, message: string): string {
    Serialize(f, code, title, "text/html", Page(code, title, message))
  }

  // ---- a reader ----

  /** Where the first CR LF is; the length if there is none. */
  function FindBreak(s: string): (i: nat)
    ensures i <= |s| && (i < |s| ==> i + 2 <= |s|)
  {
    if s == [] then 0
    else if |s| >= 2 && s[0] == '\r' && s[1] == '\n' then 0
    else 1 + FindBreak(s[1..])
  }

  datatype Cut = NoBlank | Head(lines: seq<string>, rest: string)

  /** Cutting at the first blank line. */
  function CutHead(s: string): Cut
    decreases |s|
  {
    var i := FindBreak(s);
    if i == |s| then NoBlank
    else if i == 0 then Head([], s[2..])
    else match CutHead(s[i + 2..])
      case NoBlank => NoBlank
      case Head(lines, rest) => Head([s[..i]] + lines, rest)
  }

  /** Section 3.1.2: the version, a code of three digits and a reason. */
  function StatusOf(line: string): Int {
    if |line| >= 13 && line[..9] == "HTTP/1.1 " && AllDigits(line[9..12]) && line[12] == ' '
    then AnInt(Value(line[9..12])) else NoInt
  }

  predicate Blank(c: char) { c == ' ' || c == '\t' }

  /** Section 3.2.4: a line that starts with a blank continues the field before it, as if
      the line break were a space. */
  function Unfold(lines: seq<string>): (fields: seq<string>)
    ensures lines != [] ==> fields != []
  {
    if lines == [] then [] else Fold(Unfold(lines[..|lines| - 1]), lines[|lines| - 1])
  }

  /** What one more line does to the fields. */
  function Fold(fields: seq<string>, line: string): (r: seq<string>)
    ensures r != []
  {
    if fields != [] && Folded(line)
    then fields[..|fields| - 1] + [fields[|fields| - 1] + " " + StripBlanks(line)]
    else fields + [line]
  }

  predicate Folded(line: string) { line != "" && Blank(line[0]) }

  function StripEnd(s: string): string {
    if s != [] && Blank(s[|s| - 1]) then StripEnd(s[..|s| - 1]) else s
  }

  function Trim(s: string): string { StripEnd(StripBlanks(s)) }

  function LowerChar(c: char): char {
    if 'A' <= c <= 'Z' then c + 32 as char else c
  }

  function Lower(s: string): (r: string)
    ensures |r| == |s|
  {
    seq(|s|, i requires 0 <= i < |s| => LowerChar(s[i]))
  }

  /** The name of a field, for a comparison without case; none without a colon. */
  function NameOf(field: string): string {
    var pos := Find(field, ':');
    if pos == |field| then "" else Lower(Trim(field[..pos]))
  }

  function ValueOf(field: string): string {
    var pos := Find(field, ':');
    if pos == |field| then "" else Trim(field[pos + 1..])
  }

  /** The number that a field has for its value, if it is nothing but digits. */
  function NumberOf(field: string): Int {
    var value := ValueOf(field);
    if value != "" && AllDigits(value) then AnInt(Value(value)) else NoInt
  }

  const LENGTH := "content-length"
  const CODING := "transfer-encoding"

  /** What the fields say about the length of the body. `Unframed`: a transfer coding, an
      invalid length, or lengths that differ. */
  datatype Framing = Silent | Sized(n: int) | Unframed

  function FramingOf(fields: seq<string>): Framing {
    if fields == [] then Silent else Frame(FramingOf(fields[..|fields| - 1]), fields[|fields| - 1])
  }

  /** Rules 3 and 4 of section 3.3.3; transfer codings are not decoded. */
  function Frame(before: Framing, field: string): Framing {
    if NameOf(field) == CODING then Unframed
    else if NameOf(field) != LENGTH then before
    else match NumberOf(field)
      case NoInt => Unframed
      case AnInt(n) => if before == Silent || before == Sized(n) then Sized(n) else Unframed
  }

  /** Rules 1 and 2 of section 3.3.3: the responses that end with their head. */
  predicate Bodyless(verb: string, code: int) {
    || verb == "HEAD" || 100 <= code < 200 || code == 204 || code == 304
    || (verb == "CONNECT" && 200 <= code < 300)
  }

  datatype Reading = Failed | Response(lines: seq<string>, body: string, rest: string)

  /** Reading the response to a request with this method off a connection. */
  function ReadResponse(verb: string, s: string): Reading {
    match CutHead(s)
    case NoBlank => Failed
    case Head(lines, rest) => if lines == [] then Failed else ReadBody(verb, lines, rest)
  }

  function ReadBody(verb: string, lines: seq<string>, rest: string): Reading
    requires lines != []
  {
    match StatusOf(lines[0])
    case NoInt => Failed
    case AnInt(code) =>
      if Bodyless(verb, code) then Response(lines, "", rest)
      else match FramingOf(Unfold(lines[1..]))
        case Sized(n) => if 0 <= n <= |rest| then Response(lines, rest[..n], rest[n..]) else Failed
        case _ => Failed
  }

  // ---- reading back ----

  ghost predicate Unbroken(s: string) { forall i :: 0 <= i < |s| ==> s[i] != '\r' && s[i] != '\n' }

  ghost predicate UnbrokenFields(fields: seq<(string, string)>) {
    forall i :: 0 <= i < |fields| ==> Unbroken(fields[i].0) && Unbroken(fields[i].1)
  }

  /** Nothing that goes into the head contains a line break. */
  ghost predicate Tidy(f: Fields, text: string, kind: string) {
    UnbrokenFields(f.cookies) && UnbrokenFields(f.headers) && Unbroken(text) && Unbroken(kind)
  }

  ghost predicate GoodLines(lines: seq<string>) {
    forall i :: 0 <= i < |lines| ==> lines[i] != "" && Unbroken(lines[i])
  }

  lemma {:induction false} BreakAfter(line: string, rest: string)
    requires Unbroken(line)
    ensures FindBreak(line + "\r\n" + rest) == |line|
  {
    var s := line + "\r\n" + rest;
    if line != [] {
      assert s[0] == line[0] && s[1..] == line[1..] + "\r\n" + rest;
      BreakAfter(line[1..], rest);
    }
  }

  lemma JoinSnoc(lines: seq<string>, line: string)
    ensures Join(lines + [line]) == Join(lines) + (line + "\r\n")
  {
    assert (lines + [line])[..|lines|] == lines;
  }

  lemma {:induction false} JoinFront(line: string, lines: seq<string>)
    ensures Join([line] + lines) == line + "\r\n" + Join(lines)
  {
    var all := [line] + lines;
    if lines == [] {
      assert all[..0] == [] && all[|all| - 1] == line;
      assert Join(all) == "" + (line + "\r\n");
    } else {
      var front, last := lines[..|lines| - 1], lines[|lines| - 1];
      JoinFront(line, front);
      hide Join;
      JoinSnoc([line] + front, last);
      JoinSnoc(front, last);
      assert all == ([line] + front) + [last] && lines == front + [last];
    }
  }

  /** The head is cut off at its own blank line, whatever follows. */
  lemma {:induction false} CutIsHead(lines: seq<string>, rest: string)
    requires GoodLines(lines)
    ensures CutHead(Join(lines) + "\r\n" + rest) == Head(lines, rest)
  {
    var s := Join(lines) + "\r\n" + rest;
    if lines == [] {
      assert s == "" + "\r\n" + rest;
      BreakAfter("", rest);
      assert s[2..] == rest;
    } else {
      var line, others := lines[0], lines[1..];
      assert lines == [line] + others;
      JoinFront(line, others);
      var tail := Join(others) + "\r\n" + rest;
      assert s == line + "\r\n" + tail;
      BreakAfter(line, tail);
      assert s[..|line|] == line && s[|line| + 2..] == tail;
      CutIsHead(others, rest);
    }
  }

  lemma {:induction false} DigitRunIs(d: string)
    requires AllDigits(d)
    ensures DigitRun(d) == |d|
  {
    if d != [] { DigitRunIs(d[1..]); }
  }

  /** `std::stoi` reads back what `std::to_string` prints. */
  lemma StoiOfToString(n: int)
    requires -INT_MAX - 1 <= n <= INT_MAX
    ensures Stoi(ToString(n)) == AnInt(n)
  {
    var m: nat := if n < 0 then -n else n;
    var d := Digits(m);
    ValueOfDigits(m);
    hide Digits, Value, Stoi;
    if n < 0 {
      StoiOfSigned(d);
    } else {
      StoiOfDigits(d);
    }
  }

  lemma StoiOfDigits(d: string)
    requires d != "" && AllDigits(d) && Value(d) <= INT_MAX
    ensures Stoi(d) == AnInt(Value(d))
  {
    hide Value, DigitRun;
    DigitRunIs(d);
    assert d[..|d|] == d && SkipSpace(d) == d;
  }

  lemma StoiOfSigned(d: string)
    requires d != "" && AllDigits(d) && Value(d) <= INT_MAX + 1
    ensures Stoi("-" + d) == AnInt(0 - Value(d))
  {
    hide Value, DigitRun;
    DigitRunIs(d);
    var s := "-" + d;
    assert s[1..] == d && d[..|d|] == d && SkipSpace(s) == s;
  }

  lemma {:induction false} CookieLinesGood(cookies: seq<(string, string)>)
    requires UnbrokenFields(cookies)
    ensures GoodLines(CookieLines(cookies))
  {
    if cookies != [] {
      CookieLinesGood(cookies[..|cookies| - 1]);
    }
  }

  lemma {:induction false} FieldLinesGood(fields: seq<(string, string)>)
    requires UnbrokenFields(fields)
    ensures GoodLines(FieldLines(fields))
  {
    if fields != [] {
      FieldLinesGood(fields[..|fields| - 1]);
    }
  }

  lemma TopLinesGood(code: int, text: string, kind: string, length: int)
    requires Unbroken(text) && Unbroken(kind)
    ensures GoodLines(TopLines(code, text, kind, length))
  {
    hide ToString;
  }

  lemma GoodAppend(a: seq<string>, b: seq<string>)
    requires GoodLines(a) && GoodLines(b)
    ensures GoodLines(a + b)
  {
  }

  lemma HeadLinesGood(f: Fields, code: int, text: string, kind: string, length: int)
    requires Tidy(f, text, kind)
    ensures GoodLines(HeadLines(f, code, text, kind, length, []))
  {
    hide CookieLines, TopLines, ToString, GoodLines;
    CookieLinesGood(f.cookies);
    FieldLinesGood(f.headers);
    TopLinesGood(code, text, kind, length);
    ModeLinesGood(f.keepAlive);
    var top, cookies := TopLines(code, text, kind, length), CookieLines(f.cookies);
    var mode, headers := ModeLines(f.keepAlive), FieldLines(f.headers);
    GoodAppend(top, cookies);
    GoodAppend(top + cookies, mode);
    GoodAppend(top + cookies + mode, headers);
    assert top + cookies + mode + headers + FieldLines([]) == top + cookies + mode + headers;
  }

  lemma ModeLinesGood(keepAlive: bool)
    ensures GoodLines(ModeLines(keepAlive))
  {
    hide Unbroken;
    ModeLinesUnbroken();
  }

  lemma ModeLinesUnbroken()
    ensures Unbroken("Connection: close") && Unbroken("Connection: keep-alive") && Unbroken("Keep-Alive: timeout=5")
  {
  }

  // ---- the status ----

  lemma DigitsCount(n: nat)
    ensures |Digits(n)| == 3 <==> 100 <= n <= 999
    ensures n < 100 ==> |Digits(n)| < 3
  {
    if n >= 10 {
      assert |Digits(n)| == |Digits(n / 10)| + 1;
      if n >= 100 {
        assert |Digits(n / 10)| == |Digits(n / 100)| + 1;
        assert n < 1000 <==> n / 100 < 10;
      }
    }
  }

  /** The status line is read exactly for codes of three digits. */
  lemma StatusIs(code: int, text: string)
    ensures StatusOf("HTTP/1.1 " + ToString(code) + " " + text) == if 100 <= code <= 999 then AnInt(code) else NoInt
  {
    var d := ToString(code);
    var line := "HTTP/1.1 " + d + " " + text;
    assert line[..9] == "HTTP/1.1 ";
    assert line[9..9 + |d|] == d && line[9 + |d|] == ' ';
    if code < 0 {
      assert line[9] == d[0] == '-';
      assert |line| >= 13 ==> line[9..12][0] == '-';
    } else {
      DigitsCount(code);
      ValueOfDigits(code);
      hide Digits;
      if |d| < 3 {
        assert |line| >= 13 ==> line[9..12][|d|] == ' ';
      } else if |d| > 3 {
        assert line[12] == d[3];
      }
    }
  }

  // ---- field names ----

  lemma {:induction false} StripEndIs(s: string)
    requires s == [] || !Blank(s[|s| - 1])
    ensures StripEnd(s) == s
  {
  }

  /** A field that is printed with this name has it. */
  lemma NameIs(name: string, rest: string)
    requires name != "" && ':' !in name && !Blank(name[0]) && !Blank(name[|name| - 1])
    ensures NameOf(name + ":" + rest) == Lower(name)
  {
    CutAt(name, ':', rest);
    StripEndIs(name);
    hide Find;
  }

  lemma NumberIs(name: string, value: string)
    requires ':' !in name && value != "" && !Blank(value[0]) && !Blank(value[|value| - 1])
    ensures NumberOf(name + ":" + (" " + value)) == if AllDigits(value) then AnInt(Value(value)) else NoInt
  {
    hide Find, Trim, Value;
    CutAt(name, ':', " " + value);
    TrimOne(value);
  }

  lemma TrimOne(value: string)
    requires value != "" && !Blank(value[0]) && !Blank(value[|value| - 1])
    ensures Trim(" " + value) == value
  {
    var s := " " + value;
    assert s[1..] == value;
    assert StripBlanks(s) == StripBlanks(value) == value;
    StripEndIs(value);
  }

  /** A field does not stand against a body of `n` bytes. */
  predicate Agrees(field: string, n: int) {
    NameOf(field) != CODING && (NameOf(field) == LENGTH ==> NumberOf(field) == AnInt(n))
  }

  /** An announced number agrees with a body exactly if it is its size. */
  lemma LengthLineAgrees(length: int, n: nat)
    ensures NameOf("Content-Length: " + ToString(length)) == LENGTH
    ensures Agrees("Content-Length: " + ToString(length), n) <==> length == n
  {
    var d := ToString(length);
    var line := "Content-Length: " + d;
    LowerLength();
    assert line == "Content-Length" + ":" + (" " + d);
    NameIs("Content-Length", " " + d);
    NumberIs("Content-Length", d);
    if length < 0 {
      assert !IsDigit(d[0]);
    } else {
      ValueOfDigits(length);
    }
    hide NameOf, NumberOf, Digits, Lower;
  }

  lemma LowerLength()
    ensures Lower("Content-Length") == LENGTH && LENGTH != CODING
  {
    assert |LENGTH| == 14 && |CODING| == 17;
  }

  lemma OtherNameAgrees(name: string, rest: string, n: int)
    requires name != "" && ':' !in name && !Blank(name[0]) && !Blank(name[|name| - 1]) && |name| !in {14, 17}
    ensures Agrees(name + ":" + rest, n)
  {
    hide NameOf;
    NameIs(name, rest);
    assert |LENGTH| == 14 && |CODING| == 17;
  }

  // ---- what the fields add up to ----

  ghost predicate AllAgree(fields: seq<string>, n: int) {
    forall i :: 0 <= i < |fields| ==> Agrees(fields[i], n)
  }

  ghost predicate Announces(fields: seq<string>) {
    exists i :: 0 <= i < |fields| && NameOf(fields[i]) == LENGTH
  }

  /** The fields size the body exactly if one of them announces a length and none of them
      stands against it. */
  lemma {:induction false} FramingIs(fields: seq<string>, n: int)
    ensures FramingOf(fields) == Sized(n) <==> Announces(fields) && AllAgree(fields, n)
    ensures FramingOf(fields) == Silent <==> !Announces(fields) && AllAgree(fields, n)
  {
    hide NameOf, Agrees, AllAgree, Announces, Frame;
    if fields == [] {
      NoFields(n);
    } else {
      var front, field := fields[..|fields| - 1], fields[|fields| - 1];
      FramingIs(front, n);
      FrameIs(FramingOf(front), field, n, Announces(front), AllAgree(front, n));
      AgreeSnoc(front, field, n);
      assert fields == front + [field];
    }
  }

  lemma NoFields(n: int)
    ensures !Announces([]) && AllAgree([], n)
  {
  }

  lemma FrameIs(before: Framing, field: string, n: int, announced: bool, agreed: bool)
    requires before == Sized(n) <==> announced && agreed
    requires before == Silent <==> !announced && agreed
    ensures Frame(before, field) == Sized(n) <==> (announced || NameOf(field) == LENGTH) && agreed && Agrees(field, n)
    ensures Frame(before, field) == Silent <==> !announced && NameOf(field) != LENGTH && agreed && Agrees(field, n)
  {
    hide NameOf, NumberOf;
    LowerLength();
  }

  lemma AgreeSnoc(front: seq<string>, field: string, n: int)
    ensures AllAgree(front + [field], n) <==> AllAgree(front, n) && Agrees(field, n)
    ensures Announces(front + [field]) <==> Announces(front) || NameOf(field) == LENGTH
  {
    hide NameOf, Agrees;
    var all := front + [field];
    assert all[|front|] == field;
    assert forall i :: 0 <= i < |front| ==> all[i] == front[i];
  }

  lemma AgreeAppend(a: seq<string>, b: seq<string>, n: int)
    ensures AllAgree(a + b, n) <==> AllAgree(a, n) && AllAgree(b, n)
  {
    hide Agrees;
    var all := a + b;
    assert forall i :: 0 <= i < |a| ==> all[i] == a[i];
    assert forall i :: 0 <= i < |b| ==> b[i] == all[|a| + i];
  }

  // ---- folding ----

  ghost predicate NoneFolded(lines: seq<string>) { forall i :: 0 <= i < |lines| ==> !Folded(lines[i]) }

  lemma {:induction false} UnfoldAppend(a: seq<string>, b: seq<string>)
    requires b != [] && !Folded(b[0])
    ensures Unfold(a + b) == Unfold(a) + Unfold(b)
  {
    hide Folded, Unfold;
    var front, line := b[..|b| - 1], b[|b| - 1];
    assert a + b == (a + front) + [line] && b == front + [line];
    UnfoldSnoc(a + front, line);
    UnfoldSnoc(front, line);
    UnfoldSnoc([], line);
    if front == [] {
      assert a + front == a;
    } else {
      UnfoldAppend(a, front);
      FoldAppend(Unfold(a), Unfold(front), line);
    }
  }

  lemma UnfoldSnoc(lines: seq<string>, line: string)
    ensures Unfold(lines + [line]) == Fold(Unfold(lines), line)
    ensures Unfold([]) == [] && (lines != [] ==> Unfold(lines) != [])
  {
    assert (lines + [line])[..|lines|] == lines;
  }

  lemma FoldAppend(a: seq<string>, b: seq<string>, line: string)
    requires b != []
    ensures Fold(a + b, line) == a + Fold(b, line)
  {
    hide Folded;
    assert (a + b)[..|a + b| - 1] == a + b[..|b| - 1];
  }

  lemma {:induction false} UnfoldNone(lines: seq<string>)
    requires NoneFolded(lines)
    ensures Unfold(lines) == lines
  {
    if lines != [] {
      hide Folded, Unfold;
      var front, line := lines[..|lines| - 1], lines[|lines| - 1];
      assert forall i :: 0 <= i < |front| ==> front[i] == lines[i];
      UnfoldNone(front);
      assert !Folded(line) && lines == front + [line];
      UnfoldSnoc(front, line);
    }
  }

  lemma {:induction false} CookiesAgree(cookies: seq<(string, string)>, n: int)
    ensures AllAgree(CookieLines(cookies), n) && NoneFolded(CookieLines(cookies))
  {
    if cookies != [] {
      var front, c := cookies[..|cookies| - 1], cookies[|cookies| - 1];
      CookiesAgree(front, n);
      var line := "Set-Cookie: " + c.0 + "=" + c.1 + "; Path=/; Max-Age=1800";
      assert line == "Set-Cookie" + ":" + (" " + c.0 + "=" + c.1 + "; Path=/; Max-Age=1800");
      OtherNameAgrees("Set-Cookie", " " + c.0 + "=" + c.1 + "; Path=/; Max-Age=1800", n);
      AgreeSnoc(CookieLines(front), line, n);
      assert line[0] == 'S';
    }
  }

  /** The connection and header fields as a reader sees them. */
  function OwnFields(f: Fields): seq<string> { Unfold(ModeLines(f.keepAlive) + FieldLines(f.headers)) }

  lemma TopFields(code: int, text: string, kind: string, length: int)
    ensures var fields := TopLines(code, text, kind, length)[1..];
      && NoneFolded(fields) && Announces(fields)
      && forall n: nat :: AllAgree(fields, n) <==> length == n
  {
    hide ToString, NameOf, Agrees;
    var kindLine, lengthLine := "Content-Type: " + kind, "Content-Length: " + ToString(length);
    var fields := TopLines(code, text, kind, length)[1..];
    assert fields == [kindLine] + [lengthLine];
    assert kindLine[0] == 'C' && lengthLine[0] == 'C';
    LengthLineAgrees(length, 0);
    assert NameOf(fields[1]) == LENGTH;
    forall n: nat ensures AllAgree(fields, n) <==> length == n {
      LengthLineAgrees(length, n);
      assert kindLine == "Content-Type" + ":" + (" " + kind);
      OtherNameAgrees("Content-Type", " " + kind, n);
      AgreeSnoc([kindLine], lengthLine, n);
    }
  }

  /** The fields of a head size its body exactly if the announced length does and the
      header fields agree. */
  lemma HeadFraming(f: Fields, code: int, text: string, kind: string, length: int, n: nat)
    ensures FramingOf(Unfold(HeadLines(f, code, text, kind, length, [])[1..])) == Sized(n) <==>
      length == n && AllAgree(OwnFields(f), n)
  {
    hide TopLines, CookieLines, ToString, FramingOf, AllAgree, Announces, NoneFolded, Unfold;
    TopIsThree(code, text, kind, length);
    var top, cookies := TopLines(code, text, kind, length)[1..], CookieLines(f.cookies);
    var own := ModeLines(f.keepAlive) + FieldLines(f.headers);
    TopFields(code, text, kind, length);
    CookiesAgree(f.cookies, n);
    assert HeadLines(f, code, text, kind, length, [])[1..] == (top + cookies) + own;
    assert !Folded(own[0]);
    UnfoldAppend(top + cookies, own);
    NoneFoldedAppend(top, cookies);
    UnfoldNone(top + cookies);
    FramingIs((top + cookies) + OwnFields(f), n);
    AgreeAppend(top + cookies, OwnFields(f), n);
    AgreeAppend(top, cookies, n);
    AnnouncesAppend(top, cookies + OwnFields(f));
    assert (top + cookies) + OwnFields(f) == top + (cookies + OwnFields(f));
  }

  lemma TopIsThree(code: int, text: string, kind: string, length: int)
    ensures |TopLines(code, text, kind, length)| == 3
  {
  }

  lemma NoneFoldedAppend(a: seq<string>, b: seq<string>)
    requires NoneFolded(a) && NoneFolded(b)
    ensures NoneFolded(a + b)
  {
  }

  lemma AnnouncesAppend(a: seq<string>, b: seq<string>)
    requires Announces(a)
    ensures Announces(a + b)
  {
    hide NameOf;
    var i :| 0 <= i < |a| && NameOf(a[i]) == LENGTH;
    assert (a + b)[i] == a[i];
  }

  // ---- whole responses ----

  /** What a response needs in order to be read back: a code of three digits; if the code or
      the request forbids a body, none; otherwise a size that fits an `int`, and no header
      field that announces another length or a transfer coding. */
  ghost predicate Delimited(f: Fields, verb: string, code: int, body: string) {
    && 100 <= code <= 999
    && if Bodyless(verb, code) then body == "" else |body| <= INT_MAX && AllAgree(OwnFields(f), |body|)
  }

  /** Whatever response is sent with tidy header text, in whatever order its maps iterate
      and whatever bytes follow on the connection, a reader gets exactly the head's lines
      and the body back, precisely when it is delimited. */
  lemma ResponseIsSelfDelimiting(verb: string, f: Fields, code: int, text: string, kind: string, body: string,
                                 more: string)
    requires Tidy(f, text, kind)
    ensures var lines := HeadLines(f, code, text, kind, ToInt32(|body|), []);
      var r := ReadResponse(verb, Serialize(f, code, text, kind, body) + more);
      && (r == Response(lines, body, more) <==> Delimited(f, verb, code, body))
      && (r.Response? ==> r.lines == lines)
  {
    hide HeadLines, ToString, Join, CutHead, FramingOf, Unfold, StatusOf, Bodyless, AllAgree, OwnFields, GoodLines;
    var n := ToInt32(|body|);
    var lines := HeadLines(f, code, text, kind, n, []);
    HeadLinesGood(f, code, text, kind, n);
    var rest := body + more;
    CutIsHead(lines, rest);
    assert Serialize(f, code, text, kind, body) + more == Join(lines) + "\r\n" + rest;
    FirstLineIs(f, code, text, kind, n);
    StatusIs(code, text);
    HeadFraming(f, code, text, kind, n, |body|);
    BodyOfRest(body, more);
  }

  lemma FirstLineIs(f: Fields, code: int, text: string, kind: string, length: int)
    ensures var lines := HeadLines(f, code, text, kind, length, []);
      lines != [] && lines[0] == "HTTP/1.1 " + ToString(code) + " " + text
  {
    hide ToString;
  }

  lemma BodyOfRest(body: string, more: string)
    ensures var rest := body + more;
      && rest[..|body|] == body && rest[|body|..] == more
      && (forall n :: 0 <= n <= |rest| && rest[..n] == body ==> n == |body|)
      && (rest == more ==> body == "")
  {
    var rest := body + more;
    assert forall n :: 0 <= n <= |rest| ==> |rest[..n]| == n;
    assert |rest| == |body| + |more|;
  }


  // ---- what the head says ----

  /** The names, without case, and the values of the fields of a head. */
  function ReadFields(lines: seq<string>): (r: seq<(string, string)>)
    requires lines != []
    ensures |r| == |Unfold(lines[1..])|
  {
    var fields := Unfold(lines[1..]);
    seq(|fields|, i requires 0 <= i < |fields| => FieldOf(fields[i]))
  }

  function FieldOf(field: string): (string, string) { (NameOf(field), ValueOf(field)) }

  /** The reason phrase of a status line. */
  function ReasonOf(line: string): string { if |line| < 13 then "" else line[13..] }

  /** What a head is meant to say, field by field: the type and the length, each cookie, the
      connection mode, and the application's own fields in their order. */
  function Meaning(f: Fields, kind: string, length: int, extra: seq<(string, string)>): seq<(string, string)> {
    Standard(f, kind, length) + Named(f.headers) + Named(extra)
  }

  function Standard(f: Fields, kind: string, length: int): (fields: seq<(string, string)>)
    ensures |fields| >= 3 + |f.cookies|
  {
    [("content-type", kind)] + [("content-length", ToString(length))] + Cookies(f.cookies) + Mode(f.keepAlive)
  }

  function Cookies(cookies: seq<(string, string)>): seq<(string, string)> {
    seq(|cookies|, i requires 0 <= i < |cookies| => ("set-cookie", CookieText(cookies[i].0, cookies[i].1)))
  }

  function CookieText(k: string, v: string): string { k + "=" + v + "; Path=/; Max-Age=1800" }

  function Mode(keepAlive: bool): seq<(string, string)> {
    if keepAlive then [("connection", "keep-alive"), ("keep-alive", "timeout=5")] else [("connection", "close")]
  }

  /** Fields as a reader names them. */
  function Named(headers: seq<(string, string)>): seq<(string, string)> {
    seq(|headers|, i requires 0 <= i < |headers| => (Lower(headers[i].0), headers[i].1))
  }

  /** Text that survives being written as a field. */
  predicate PlainField(k: string, v: string) { ':' !in k && Trim(k) == k && Trim(v) == v }

  ghost predicate AllPlain(fields: seq<(string, string)>) {
    forall i :: 0 <= i < |fields| ==> PlainField(fields[i].0, fields[i].1)
  }

  /** The type, the cookies and the application's fields can be told from a line. */
  ghost predicate Readable(f: Fields, kind: string, extra: seq<(string, string)>) {
    && Trim(kind) == kind && AllPlain(f.headers) && AllPlain(extra)
    && forall i :: 0 <= i < |f.cookies| ==> !Folded(f.cookies[i].0)
  }

  /** Line by line these are the fields. */
  ghost predicate ReadsAs(lines: seq<string>, fields: seq<(string, string)>) {
    |lines| == |fields| && forall i :: 0 <= i < |lines| ==> FieldOf(lines[i]) == fields[i]
  }

  lemma ReadsAsAppend(a: seq<string>, b: seq<string>, fa: seq<(string, string)>, fb: seq<(string, string)>)
    requires |a| == |fa| && |b| == |fb|
    ensures ReadsAs(a + b, fa + fb) <==> ReadsAs(a, fa) && ReadsAs(b, fb)
  {
    hide FieldOf;
    var all, fields := a + b, fa + fb;
    assert forall i :: 0 <= i < |a| ==> all[i] == a[i] && fields[i] == fa[i];
    assert forall i :: 0 <= i < |b| ==> b[i] == all[|a| + i] && fb[i] == fields[|a| + i];
  }

  lemma {:induction false} StripBlanksIs(s: string)
    ensures var r := StripBlanks(s); r == s[|s| - |r|..] && (|r| == |s| ==> s == [] || !Blank(s[0]))
  {
    if s != [] && Blank(s[0]) {
      StripBlanksIs(s[1..]);
    }
  }

  lemma {:induction false} StripEndShortens(s: string)
    ensures |StripEnd(s)| <= |s| && StripEnd(s) == s[..|StripEnd(s)|]
    ensures StripEnd(s) == s <==> s == [] || !Blank(s[|s| - 1])
  {
    if s != [] && Blank(s[|s| - 1]) {
      StripEndShortens(s[..|s| - 1]);
    }
  }

  /** Trimming shortens exactly what has a blank at an end. */
  lemma TrimIff(s: string)
    ensures |Trim(s)| <= |s| && (|Trim(s)| == |s| <==> Trim(s) == s)
    ensures Trim(s) == s <==> s == [] || (!Blank(s[0]) && !Blank(s[|s| - 1]))
  {
    StripBlanksIs(s);
    StripEndShortens(StripBlanks(s));
  }

  /** A line is read as the name and value that were put into it exactly if they are plain. */
  lemma FieldIff(k: string, v: string)
    ensures FieldOf(k + ": " + v) == (Lower(k), v) <==> PlainField(k, v)
  {
    var line := k + ": " + v;
    hide Find, Trim, Lower;
    if ':' in k {
      ColonInName(k, v);
    } else {
      assert line == k + ":" + (" " + v);
      CutAt(k, ':', " " + v);
      TrimBlank(v);
      TrimIff(k);
    }
  }

  lemma ColonInName(k: string, v: string)
    requires ':' in k
    ensures NameOf(k + ": " + v) != Lower(k)
  {
    var line := k + ": " + v;
    var i :| 0 <= i < |k| && k[i] == ':';
    FindBefore(line, ':', i);
    TrimIff(line[..Find(line, ':')]);
  }

  lemma TrimBlank(v: string)
    ensures Trim(" " + v) == Trim(v)
  {
    assert (" " + v)[1..] == v;
  }

  lemma {:induction false} FieldLinesAt(fields: seq<(string, string)>)
    ensures |FieldLines(fields)| == |fields|
    ensures forall i :: 0 <= i < |fields| ==> FieldLines(fields)[i] == fields[i].0 + ": " + fields[i].1
  {
    if fields != [] { FieldLinesAt(fields[..|fields| - 1]); }
  }

  lemma FieldsIff(fields: seq<(string, string)>)
    ensures |FieldLines(fields)| == |fields| && (ReadsAs(FieldLines(fields), Named(fields)) <==> AllPlain(fields))
    ensures AllPlain(fields) ==> NoneFolded(FieldLines(fields))
  {
    hide FieldLines, FieldOf, Lower, Trim, Folded;
    FieldLinesAt(fields);
    forall i | 0 <= i < |fields|
      ensures FieldOf(FieldLines(fields)[i]) == Named(fields)[i] <==> PlainField(fields[i].0, fields[i].1)
      ensures PlainField(fields[i].0, fields[i].1) ==> !Folded(FieldLines(fields)[i])
    {
      FieldIff(fields[i].0, fields[i].1);
      PlainIsNotFolded(fields[i].0, fields[i].1);
    }
  }

  lemma PlainIsNotFolded(k: string, v: string)
    ensures PlainField(k, v) ==> !Folded(k + ": " + v)
  {
    TrimIff(k);
    hide Trim;
  }

  lemma {:induction false} CookieLinesAt(cookies: seq<(string, string)>)
    ensures |CookieLines(cookies)| == |cookies|
    ensures forall i :: 0 <= i < |cookies| ==>
      CookieLines(cookies)[i] == "Set-Cookie: " + CookieText(cookies[i].0, cookies[i].1)
  {
    if cookies != [] {
      var c := cookies[|cookies| - 1];
      CookieLinesAt(cookies[..|cookies| - 1]);
      assert "Set-Cookie: " + c.0 + "=" + c.1 + "; Path=/; Max-Age=1800" == "Set-Cookie: " + CookieText(c.0, c.1);
    }
  }

  lemma CookiesIff(cookies: seq<(string, string)>)
    ensures |CookieLines(cookies)| == |cookies|
    ensures ReadsAs(CookieLines(cookies), Cookies(cookies)) <==>
      forall i :: 0 <= i < |cookies| ==> !Folded(cookies[i].0)
  {
    hide CookieLines, FieldOf, Folded, CookieText;
    CookieLinesAt(cookies);
    forall i | 0 <= i < |cookies|
      ensures FieldOf(CookieLines(cookies)[i]) == Cookies(cookies)[i] <==> !Folded(cookies[i].0)
    {
      CookieFieldIff(cookies[i].0, cookies[i].1);
    }
  }

  lemma CookieFieldIff(k: string, v: string)
    ensures FieldOf("Set-Cookie: " + CookieText(k, v)) == ("set-cookie", CookieText(k, v)) <==> !Folded(k)
  {
    var text := CookieText(k, v);
    LowerNames();
    PlainNames();
    TrimIff(text);
    assert text[|text| - 1] == '0' && text[0] == (if k == "" then '=' else k[0]);
    hide FieldOf, Trim, Lower;
    FieldIff("Set-Cookie", text);
    assert "Set-Cookie" + ": " + text == "Set-Cookie: " + text;
  }

  lemma LowerNames()
    ensures Lower("Set-Cookie") == "set-cookie" && Lower("Content-Type") == "content-type"
    ensures Lower("Content-Length") == "content-length"
    ensures Lower("Connection") == "connection" && Lower("Keep-Alive") == "keep-alive"
  {
  }

  lemma PlainNames()
    ensures forall k :: k in {"Set-Cookie", "Content-Type", "Content-Length", "Connection", "Keep-Alive"} ==>
      ':' !in k && Trim(k) == k
    ensures forall v :: v in {"keep-alive", "timeout=5", "close"} ==> Trim(v) == v
  {
    hide Trim;
    forall k | k in {"Set-Cookie", "Content-Type", "Content-Length", "Connection", "Keep-Alive"}
      ensures ':' !in k && Trim(k) == k
    {
      TrimIff(k);
    }
    forall v | v in {"keep-alive", "timeout=5", "close"} ensures Trim(v) == v { TrimIff(v); }
  }

  lemma ModeReads(keepAlive: bool)
    ensures |ModeLines(keepAlive)| == |Mode(keepAlive)|
    ensures ReadsAs(ModeLines(keepAlive), Mode(keepAlive)) && NoneFolded(ModeLines(keepAlive))
  {
    hide FieldOf;
    KeepAliveReads();
    TimeoutReads();
    CloseReads();
  }

  lemma KeepAliveReads()
    ensures FieldOf("Connection: keep-alive") == ("connection", "keep-alive")
  {
    hide FieldOf, Lower, Trim;
    LowerNames();
    PlainNames();
    FieldIff("Connection", "keep-alive");
    assert "Connection" + ": " + "keep-alive" == "Connection: keep-alive";
  }

  lemma TimeoutReads()
    ensures FieldOf("Keep-Alive: timeout=5") == ("keep-alive", "timeout=5")
  {
    hide FieldOf, Lower, Trim;
    LowerNames();
    PlainNames();
    FieldIff("Keep-Alive", "timeout=5");
    assert "Keep-Alive" + ": " + "timeout=5" == "Keep-Alive: timeout=5";
  }

  lemma CloseReads()
    ensures FieldOf("Connection: close") == ("connection", "close")
  {
    hide FieldOf, Lower, Trim;
    LowerNames();
    PlainNames();
    FieldIff("Connection", "close");
    assert "Connection" + ": " + "close" == "Connection: close";
  }

  lemma TopReads(code: int, text: string, kind: string, length: int)
    ensures var lines := TopLines(code, text, kind, length)[1..];
      ReadsAs(lines, [("content-type", kind)] + [("content-length", ToString(length))]) <==> Trim(kind) == kind
  {
    hide FieldOf, Lower, Trim, ToString;
    LowerNames();
    PlainNames();
    FieldIff("Content-Type", kind);
    FieldIff("Content-Length", ToString(length));
    NumbersAreTrim(length);
    var lines := TopLines(code, text, kind, length)[1..];
    assert lines[0] == "Content-Type" + ": " + kind && lines[1] == "Content-Length" + ": " + ToString(length);
  }

  lemma NumbersAreTrim(n: int)
    ensures Trim(ToString(n)) == ToString(n)
  {
    hide Digits, Trim;
    TrimIff(ToString(n));
  }

  lemma {:induction false} UnfoldLength(lines: seq<string>)
    ensures |Unfold(lines)| <= |lines|
    ensures (exists i :: 0 < i < |lines| && Folded(lines[i])) ==> |Unfold(lines)| < |lines|
  {
    if lines != [] {
      hide Folded;
      var front := lines[..|lines| - 1];
      UnfoldLength(front);
      if i :| 0 < i < |lines| && Folded(lines[i]) {
        assert i < |front| ==> front[i] == lines[i];
      }
    }
  }

  /** The lines of a head are read as what they are meant to say exactly if it is readable. */
  lemma HeadIsReadIff(f: Fields, code: int, text: string, kind: string, length: int, extra: seq<(string, string)>)
    ensures var lines := HeadLines(f, code, text, kind, length, extra);
      ReadFields(lines) == Meaning(f, kind, length, extra) <==> Readable(f, kind, extra)
  {
    hide TopLines, ToString, FieldOf, ReadsAs, Folded, Trim, Unfold, AllPlain, HeadLines;
    TopIsThree(code, text, kind, length);
    var lines := HeadLines(f, code, text, kind, length, extra);
    var top, cookies, mode := TopLines(code, text, kind, length)[1..], CookieLines(f.cookies), ModeLines(f.keepAlive);
    var a := top + cookies + mode;
    RestOfHead(f, code, text, kind, length, extra);
    FieldsIff(f.headers);
    FieldsIff(extra);
    CookiesIff(f.cookies);
    ModeReads(f.keepAlive);
    TopReads(code, text, kind, length);
    var ft, fc := [("content-type", kind)] + [("content-length", ToString(length))], Cookies(f.cookies);
    ReadsAsAppend(top, cookies, ft, fc);
    ReadsAsAppend(top + cookies, mode, ft + fc, Mode(f.keepAlive));
    var fa := ft + fc + Mode(f.keepAlive);
    ReadsAsAppend(a, FieldLines(f.headers), fa, Named(f.headers));
    ReadsAsAppend(a + FieldLines(f.headers), FieldLines(extra), fa + Named(f.headers), Named(extra));
    HeadCount(f, code, text, kind, length, extra);
    if Readable(f, kind, extra) {
      HeadUnfolds(f, code, text, kind, length, extra);
    }
    TypeIsNotFolded(kind);
    ReadOfUnfolded(lines, Meaning(f, kind, length, extra));
  }

  lemma RestOfHead(f: Fields, code: int, text: string, kind: string, length: int, extra: seq<(string, string)>)
    ensures |TopLines(code, text, kind, length)| == 3
    ensures HeadLines(f, code, text, kind, length, extra)[1..] ==
      TopLines(code, text, kind, length)[1..] + CookieLines(f.cookies) + ModeLines(f.keepAlive)
      + FieldLines(f.headers) + FieldLines(extra)
  {
    TopIsThree(code, text, kind, length);
    hide TopLines, FieldLines, CookieLines, ModeLines;
  }

  lemma TypeIsNotFolded(kind: string)
    ensures !Folded("Content-Type: " + kind)
  {
    assert ("Content-Type: " + kind)[0] == 'C';
  }

  lemma HeadCount(f: Fields, code: int, text: string, kind: string, length: int, extra: seq<(string, string)>)
    ensures |HeadLines(f, code, text, kind, length, extra)| == 1 + |Meaning(f, kind, length, extra)|
    ensures HeadLines(f, code, text, kind, length, extra)[1] == "Content-Type: " + kind
  {
    hide ToString, FieldLines, CookieLines;
    CookieLinesAt(f.cookies);
    FieldLinesAt(f.headers);
    FieldLinesAt(extra);
  }

  /** Plain fields leave nothing to unfold. */
  lemma HeadUnfolds(f: Fields, code: int, text: string, kind: string, length: int, extra: seq<(string, string)>)
    requires AllPlain(f.headers) && AllPlain(extra)
    ensures NoneFolded(HeadLines(f, code, text, kind, length, extra)[1..])
  {
    hide TopLines, ToString, FieldLines, CookieLines, ModeLines, AllPlain, NoneFolded;
    hide HeadLines;
    TopIsThree(code, text, kind, length);
    TopFields(code, text, kind, length);
    CookiesAgree(f.cookies, 0);
    ModeReads(f.keepAlive);
    FieldsIff(f.headers);
    FieldsIff(extra);
    var top, cookies, mode := TopLines(code, text, kind, length)[1..], CookieLines(f.cookies), ModeLines(f.keepAlive);
    RestOfHead(f, code, text, kind, length, extra);
    NoneFoldedAppend(top, cookies);
    NoneFoldedAppend(top + cookies, mode);
    NoneFoldedAppend(top + cookies + mode, FieldLines(f.headers));
    NoneFoldedAppend(top + cookies + mode + FieldLines(f.headers), FieldLines(extra));
  }

  lemma ReadOfUnfolded(lines: seq<string>, fields: seq<(string, string)>)
    requires |lines| == 1 + |fields| > 1 && !Folded(lines[1])
    ensures ReadFields(lines) == fields <==> NoneFolded(lines[1..]) && ReadsAs(lines[1..], fields)
  {
    hide FieldOf, Folded;
    var rest := lines[1..];
    if NoneFolded(rest) {
      UnfoldNone(rest);
    } else {
      UnfoldLength(rest);
    }
  }

  datatype Found = Absent | Is(value: string)

  /** The first field with this name. */
  function First(fields: seq<(string, string)>, name: string): Found {
    if fields == [] then Absent else if fields[0].0 == name then Is(fields[0].1) else First(fields[1..], name)
  }

  lemma {:induction false} FirstAt(fields: seq<(string, string)>, name: string, i: nat)
    requires i < |fields| && fields[i].0 == name && forall j :: 0 <= j < i ==> fields[j].0 != name
    ensures First(fields, name) == Is(fields[i].1)
  {
    if i > 0 { FirstAt(fields[1..], name, i - 1); }
  }

  /** A `Set-Cookie` value after section 5.2 of RFC 6265: the pair before the first
      semicolon, cut at its first equals sign; without a name it is ignored. */
  datatype SetCookie = NoCookie | SetCookie(name: string, value: string, attributes: string)

  function CookieOf(text: string): SetCookie {
    var end := Find(text, ';');
    var pair, attributes := text[..end], if end == |text| then "" else text[end + 1..];
    var pos := Find(pair, '=');
    if pos == |pair| || Trim(pair[..pos]) == "" then NoCookie
    else SetCookie(Trim(pair[..pos]), Trim(pair[pos + 1..]), attributes)
  }

  /** Names and values that a cookie can carry. */
  predicate PlainCookie(k: string, v: string) {
    k != "" && '=' !in k && ';' !in k && ';' !in v && Trim(k) == k && Trim(v) == v
  }

  /** A browser stores exactly a plain cookie as it was set, for the path and the time that
      the code prints. */
  lemma CookieIff(k: string, v: string)
    ensures CookieOf(CookieText(k, v)) == SetCookie(k, v, " Path=/; Max-Age=1800") <==> PlainCookie(k, v)
  {
    hide CookieOf, PlainCookie;
    CookieCut(k, v, " Path=/; Max-Age=1800");
    assert CookieText(k, v) == k + "=" + v + ";" + " Path=/; Max-Age=1800";
  }

  lemma CookieCut(k: string, v: string, attributes: string)
    ensures CookieOf(k + "=" + v + ";" + attributes) == SetCookie(k, v, attributes) <==> PlainCookie(k, v)
  {
    hide Find, Trim;
    var pair := k + "=" + v;
    if ';' in pair {
      SemicolonInPair(pair, attributes);
      assert ';' in k || ';' in v;
    } else {
      assert ';' !in k && ';' !in v by { assert forall c :: c in k || c in v ==> c in pair; }
      CutAt(pair, ';', attributes);
      PairIff(k, v);
    }
  }

  lemma SemicolonInPair(pair: string, attributes: string)
    requires ';' in pair
    ensures var text := pair + ";" + attributes;
      var end := Find(text, ';'); end < |text| && |text[end + 1..]| > |attributes|
  {
    var text := pair + ";" + attributes;
    var i :| 0 <= i < |pair| && pair[i] == ';';
    FindBefore(text, ';', i);
  }

  lemma PairIff(k: string, v: string)
    ensures var pair := k + "=" + v;
      var pos := Find(pair, '=');
      pos < |pair| &&
      (Trim(pair[..pos]) == k && Trim(pair[pos + 1..]) == v <==> '=' !in k && Trim(k) == k && Trim(v) == v)
  {
    hide Trim;
    var pair := k + "=" + v;
    var pos := Find(pair, '=');
    FindBefore(pair, '=', |k|);
    if '=' in k {
      var i :| 0 <= i < |k| && k[i] == '=';
      FindBefore(pair, '=', i);
      TrimIff(pair[..pos]);
    } else {
      CutAt(k, '=', v);
    }
  }

  /** What the meaning of a head says to a client: the type; `keep-alive` exactly if the
      connection is kept; and each plain cookie. */
  lemma MeaningSays(f: Fields, kind: string, length: int, extra: seq<(string, string)>)
    ensures var fields := Meaning(f, kind, length, extra);
      && First(fields, "content-type") == Is(kind)
      && First(fields, "content-length") == Is(ToString(length))
      && (First(fields, "connection") == Is("keep-alive") <==> f.keepAlive)
      && (First(fields, "connection") == Is("close") <==> !f.keepAlive)
      && (forall i :: 0 <= i < |f.cookies| ==> SaysCookie(fields[2 + i], f.cookies[i]))
  {
    hide ToString, CookieText, SaysCookie, Named;
    var fields := Meaning(f, kind, length, extra);
    var n := 2 + |f.cookies|;
    NamesDiffer();
    FirstAt(fields, "content-type", 0);
    FirstAt(fields, "content-length", 1);
    forall j | 2 <= j < n ensures fields[j].0 == "set-cookie" && SaysCookie(fields[j], f.cookies[j - 2]) {
      assert fields[j] == ("set-cookie", CookieText(f.cookies[j - 2].0, f.cookies[j - 2].1));
      CookieIsSaid(f.cookies[j - 2]);
    }
    assert fields[n] == Mode(f.keepAlive)[0];
    FirstAt(fields, "connection", n);
  }

  lemma MeaningHasHeaders(f: Fields, kind: string, length: int)
    ensures var fields := Meaning(f, kind, length, []);
      |fields| >= 3 + |f.cookies| + |f.headers| && fields[|fields| - |f.headers|..] == Named(f.headers)
  {
    hide Standard, Lower;
    var own, named := Standard(f, kind, length), Named(f.headers);
    assert Named([]) == [];
    assert Meaning(f, kind, length, []) == own + named;
    hide Named;
    assert (own + named)[|own|..] == named;
  }

  /** What a client learns from the head of a response: code, reason, type and size, whether
      the connection is kept, each cookie, and the application's fields with their own
      names and values. */
  ghost predicate Says(r: Reading, f: Fields, code: int, text: string, kind: string, size: nat) {
    && r.Response? && r.lines != [] && StatusOf(r.lines[0]) == AnInt(code) && ReasonOf(r.lines[0]) == text
    && (var fields := ReadFields(r.lines);
        var m := |fields| - |f.headers|;
        && m >= 3 + |f.cookies|
        && First(fields, "content-type") == Is(kind) && First(fields, "content-length") == Is(ToString(size))
        && (First(fields, "connection") == Is("keep-alive") <==> f.keepAlive)
        && (First(fields, "connection") == Is("close") <==> !f.keepAlive)
        && (forall i :: 0 <= i < |f.cookies| ==> SaysCookie(fields[2 + i], f.cookies[i]))
        && fields[m..] == Named(f.headers))
  }

  /** The field sets this cookie, if it is one that a cookie can carry. */
  ghost predicate SaysCookie(field: (string, string), cookie: (string, string)) {
    && field.0 == "set-cookie"
    && (PlainCookie(cookie.0, cookie.1) ==>
          CookieOf(field.1) == SetCookie(cookie.0, cookie.1, " Path=/; Max-Age=1800"))
  }

  lemma CookieIsSaid(cookie: (string, string))
    ensures SaysCookie(("set-cookie", CookieText(cookie.0, cookie.1)), cookie)
  {
    hide CookieOf, CookieText, PlainCookie;
    CookieIff(cookie.0, cookie.1);
  }

  lemma NamesDiffer()
    ensures "content-type" != "content-length" && "content-type" != "connection" && "content-length" != "connection"
    ensures "set-cookie" != "connection" && "keep-alive" != "close"
  {
    assert |"content-type"| == 12 && |"content-length"| == 14 && |"connection"| == 10 && |"set-cookie"| == 10;
    assert "set-cookie"[0] == 's' && "connection"[0] == 'c';
    assert |"keep-alive"| == 10 && |"close"| == 5;
  }

  /** Whatever response is sent, a reader that takes it gets the code and the reason, and its
      fields as they are meant exactly if they are readable. */
  lemma ResponseIsRead(verb: string, f: Fields, code: int, text: string, kind: string, body: string, more: string)
    requires Tidy(f, text, kind) && ReadResponse(verb, Serialize(f, code, text, kind, body) + more).Response?
    ensures var r := ReadResponse(verb, Serialize(f, code, text, kind, body) + more);
      && r.lines != [] && StatusOf(r.lines[0]) == AnInt(code) && ReasonOf(r.lines[0]) == text
      && (ReadFields(r.lines) == Meaning(f, kind, ToInt32(|body|), []) <==> Readable(f, kind, []))
  {
    hide HeadLines, ReadResponse, Serialize, Readable, Meaning, ReadFields, ToString, Delimited, StatusOf;
    ResponseIsSelfDelimiting(verb, f, code, text, kind, body, more);
    HeadIsReadIff(f, code, text, kind, ToInt32(|body|), []);
    FirstLineIs(f, code, text, kind, ToInt32(|body|));
    StatusIs(code, text);
    StatusWasRead(verb, Serialize(f, code, text, kind, body) + more);
    ReasonIs(code, text);
  }

  lemma StatusWasRead(verb: string, s: string)
    requires ReadResponse(verb, s).Response?
    ensures var lines := ReadResponse(verb, s).lines; lines != [] && StatusOf(lines[0]).AnInt?
  {
    hide CutHead, StatusOf, FramingOf, Unfold;
  }

  lemma ReasonIs(code: int, text: string)
    requires 100 <= code <= 999
    ensures ReasonOf("HTTP/1.1 " + ToString(code) + " " + text) == text
  {
    DigitsCount(code);
    hide Digits;
    var line := "HTTP/1.1 " + ToString(code) + " " + text;
    assert |ToString(code)| == 3 && line[13..] == text;
  }

  ghost predicate ReadsBack(r: Reading, body: string, more: string) {
    r.Response? && r.body == body && r.rest == more
  }

  /** The two senders in particular. */
  lemma JsonIsSelfDelimiting(verb: string, f: Fields, code: int, json: string, more: string)
    requires Tidy(f, "OK", "application/json")
    ensures ReadsBack(ReadResponse(verb, SendJson(f, code, json) + more), json, more) <==>
      Delimited(f, verb, code, json)
  {
    hide HeadLines, ReadResponse, Serialize, Delimited;
    ResponseIsSelfDelimiting(verb, f, code, "OK", "application/json", json, more);
  }

  /** A page is never empty, so it must not answer a request or carry a code without body. */
  lemma TextIsSelfDelimiting(verb: string, f: Fields, code: int, title: string, message: string, more: string)
    requires Tidy(f, title, "text/html")
    ensures var page := Page(code, title, message);
      ReadsBack(ReadResponse(verb, SendText(f, code, title, message) + more), page, more) <==>
      && 100 <= code <= 999 && !Bodyless(verb, code)
      && |page| <= INT_MAX && AllAgree(OwnFields(f), |page|)
  {
    hide HeadLines, ReadResponse, Serialize, AllAgree, OwnFields, Bodyless, ToString;
    ResponseIsSelfDelimiting(verb, f, code, title, "text/html", Page(code, title, message), more);
  }

  lemma DelimitedSize(f: Fields, verb: string, code: int, body: string)
    requires Delimited(f, verb, code, body)
    ensures ToInt32(|body|) == |body|
  {
    hide AllAgree, OwnFields, Bodyless;
  }

  /** A delimited response with readable fields says what it was built from. */
  lemma ResponseSays(verb: string, f: Fields, code: int, text: string, kind: string, body: string, more: string)
    requires Tidy(f, text, kind) && Readable(f, kind, []) && Delimited(f, verb, code, body)
    ensures var r := ReadResponse(verb, Serialize(f, code, text, kind, body) + more);
      ReadsBack(r, body, more) && Says(r, f, code, text, kind, |body|)
  {
    hide HeadLines, ReadResponse, Serialize, Delimited, Readable, Meaning, ReadFields, SaysCookie, First, StatusOf;
    ResponseIsSelfDelimiting(verb, f, code, text, kind, body, more);
    DelimitedSize(f, verb, code, body);
    ResponseIsRead(verb, f, code, text, kind, body, more);
    MeaningSays(f, kind, |body|, []);
    MeaningHasHeaders(f, kind, |body|);
  }

  /** What a JSON response says. */
  lemma JsonSays(verb: string, f: Fields, code: int, json: string, more: string)
    requires Tidy(f, "OK", "application/json") && Readable(f, "", []) && Delimited(f, verb, code, json)
    ensures var r := ReadResponse(verb, SendJson(f, code, json) + more);
      ReadsBack(r, json, more) && Says(r, f, code, "OK", "application/json", |json|)
  {
    hide ReadResponse, Serialize, Delimited, Says, AllPlain, Trim, ReadsBack;
    TrimIff("application/json");
    ResponseSays(verb, f, code, "OK", "application/json", json, more);
  }

  // ---- the page ----

  /** The text of the first element with this tag: up to the next markup. */
  function ElementText(s: string, tag: string): string
    decreases |s|
  {
    if tag <= s then s[|tag|..][..Find(s[|tag|..], '<')]
    else if s == [] then "" else ElementText(s[1..], tag)
  }

  lemma {:induction false} TextIsPlain(s: string, tag: string)
    ensures '<' !in ElementText(s, tag)
    decreases |s|
  {
    if !(tag <= s) && s != [] { TextIsPlain(s[1..], tag); }
  }

  lemma TextAt(text: string, rest: string, tag: string)
    requires '<' !in text
    ensures ElementText(tag + text + "<" + rest, tag) == text
  {
    var s := tag + text + "<" + rest;
    assert s == tag + (text + "<" + rest) && s[|tag|..] == text + "<" + rest;
    CutAt(text, '<', rest);
  }

  /** Text without markup is skipped. */
  lemma {:induction false} SkipText(text: string, rest: string, tag: string)
    requires '<' !in text && tag != "" && tag[0] == '<'
    ensures ElementText(text + rest, tag) == ElementText(rest, tag)
  {
    if text == [] {
      assert text + rest == rest;
    } else {
      assert (text + rest)[0] == text[0] && (text + rest)[1..] == text[1..] + rest;
      SkipText(text[1..], rest, tag);
    }
  }

  /** And so is another tag, which differs at `i`. */
  lemma SkipTag(other: string, rest: string, tag: string, i: nat)
    requires 0 < i < |other| && i < |tag| && other[i] != tag[i] && '<' !in other[1..] && tag[0] == '<'
    ensures ElementText(other + rest, tag) == ElementText(rest, tag)
  {
    hide Find;
    var s := other + rest;
    assert s[i] == other[i];
    assert s[1..] == other[1..] + rest;
    SkipText(other[1..], rest, tag);
  }

  /** What follows the title of a page, what follows its heading, and the paragraph. */
  function AfterTitle(code: int, title: string, message: string): string {
    "</title>" + ("</head>" + ("<body>" + ("<h1>" + ((ToString(code) + " " + title) + AfterHeading(message)))))
  }

  function AfterHeading(message: string): string { "</h1>" + ("<p>" + message + "<" + "/p></body></html>") }

  lemma PageShape(code: int, title: string, message: string)
    ensures Page(code, title, message) ==
      "<html>" + ("<head>" + ("<title>" + (title + AfterTitle(code, title, message))))
  {
    hide ToString, Page;
    var heading, tail := ToString(code) + " " + title, "</h1>" + ("<p>" + message + "</p></body></html>");
    PageIsParts(code, title, message);
    EndOfPage(message);
    StartOfPage(title, "<body><h1>" + heading + tail);
    MiddleOfPage(heading, tail);
  }

  lemma PageIsParts(code: int, title: string, message: string)
    ensures Page(code, title, message) == "<html><head><title>" + title + "</title></head>" +
      ("<body><h1>" + (ToString(code) + " " + title) + ("</h1>" + ("<p>" + message + "</p></body></html>")))
  {
    hide ToString;
  }

  lemma EndOfPage(message: string)
    ensures "</h1>" + ("<p>" + message + "</p></body></html>") == AfterHeading(message)
  {
    assert "</p></body></html>" == "<" + "/p></body></html>";
  }

  lemma MiddleOfPage(heading: string, rest: string)
    ensures "<body><h1>" + heading + rest == "<body>" + ("<h1>" + (heading + rest))
  {
    assert "<body><h1>" == "<body>" + "<h1>";
  }

  lemma StartOfPage(title: string, rest: string)
    ensures "<html><head><title>" + title + "</title></head>" + rest ==
      "<html>" + ("<head>" + ("<title>" + (title + ("</title>" + ("</head>" + rest)))))
  {
    assert "<html><head><title>" == "<html>" + "<head>" + "<title>";
    assert "</title></head>" == "</title>" + "</head>";
  }

  lemma ToTitle(rest: string, tag: string)
    requires tag in {"<title>", "<h1>", "<p>"}
    ensures ElementText("<html>" + ("<head>" + rest), tag) == ElementText(rest, tag)
  {
    hide ElementText;
    SkipTag("<html>", "<head>" + rest, tag, if tag == "<h1>" then 2 else 1);
    SkipTag("<head>", rest, tag, if tag == "<h1>" then 2 else 1);
  }

  lemma PastTitle(title: string, rest: string, tag: string)
    requires '<' !in title && (tag == "<h1>" || tag == "<p>")
    ensures ElementText("<title>" + (title + ("</title>" + ("</head>" + ("<body>" + rest)))), tag) ==
      ElementText(rest, tag)
  {
    hide ElementText;
    var s1 := "<body>" + rest;
    var s2 := "</head>" + s1;
    var s3 := "</title>" + s2;
    SkipTag("<title>", title + s3, tag, 1);
    SkipText(title, s3, tag);
    SkipTag("</title>", s2, tag, 1);
    SkipTag("</head>", s1, tag, 1);
    SkipTag("<body>", rest, tag, 1);
  }

  lemma NumbersArePlain(code: int, title: string)
    requires '<' !in title
    ensures '<' !in ToString(code) + " " + title
  {
    hide ToString;
  }

  /** A page shows its title, the code with it, and the message exactly if neither text has
      markup in it: the code escapes nothing. */
  lemma PageIsReadIff(code: int, title: string, message: string)
    ensures var page := Page(code, title, message);
      (&& ElementText(page, "<title>") == title
       && ElementText(page, "<h1>") == ToString(code) + " " + title
       && ElementText(page, "<p>") == message) <==> '<' !in title && '<' !in message
  {
    hide ElementText, ToString, AfterHeading, Page;
    var page := Page(code, title, message);
    PageShape(code, title, message);
    TextIsPlain(page, "<title>");
    TextIsPlain(page, "<p>");
    if '<' !in title && '<' !in message {
      assert AfterTitle(code, title, message)[0] == '<';
      hide AfterTitle;
      TitleIsRead(title, AfterTitle(code, title, message));
      HeadingIsRead(code, title, message);
      MessageIsRead(code, title, message);
    }
  }

  lemma TitleIsRead(title: string, rest: string)
    requires '<' !in title && rest != "" && rest[0] == '<'
    ensures ElementText("<html>" + ("<head>" + ("<title>" + (title + rest))), "<title>") == title
  {
    hide ElementText;
    ToTitle("<title>" + (title + rest), "<title>");
    assert "<title>" + (title + rest) == "<title>" + title + "<" + rest[1..];
    TextAt(title, rest[1..], "<title>");
  }

  lemma HeadingIsRead(code: int, title: string, message: string)
    requires '<' !in title
    ensures ElementText("<html>" + ("<head>" + ("<title>" + (title + AfterTitle(code, title, message)))), "<h1>") ==
      ToString(code) + " " + title
  {
    hide ElementText, ToString;
    var heading, rest := ToString(code) + " " + title, AfterHeading(message);
    ToTitle("<title>" + (title + AfterTitle(code, title, message)), "<h1>");
    PastTitle(title, "<h1>" + (heading + rest), "<h1>");
    NumbersArePlain(code, title);
    assert rest[0] == '<';
    assert "<h1>" + (heading + rest) == "<h1>" + heading + "<" + rest[1..];
    TextAt(heading, rest[1..], "<h1>");
  }

  lemma MessageIsRead(code: int, title: string, message: string)
    requires '<' !in title && '<' !in message
    ensures ElementText("<html>" + ("<head>" + ("<title>" + (title + AfterTitle(code, title, message)))), "<p>")
      == message
  {
    hide ElementText, ToString;
    var heading, rest := ToString(code) + " " + title, AfterHeading(message);
    ToTitle("<title>" + (title + AfterTitle(code, title, message)), "<p>");
    PastTitle(title, "<h1>" + (heading + rest), "<p>");
    NumbersArePlain(code, title);
    SkipTag("<h1>", heading + rest, "<p>", 1);
    SkipText(heading, rest, "<p>");
    SkipTag("</h1>", "<p>" + message + "<" + "/p></body></html>", "<p>", 1);
    TextAt(message, "/p></body></html>", "<p>");
  }

  /** What a text response says, in its head and on its page. */
  lemma TextSays(verb: string, f: Fields, code: int, title: string, message: string, more: string)
    requires Tidy(f, title, "text/html") && Readable(f, "", []) && Delimited(f, verb, code, Page(code, title, message))
    ensures var r := ReadResponse(verb, SendText(f, code, title, message) + more);
      && ReadsBack(r, Page(code, title, message), more)
      && Says(r, f, code, title, "text/html", |Page(code, title, message)|)
  {
    hide ReadResponse, Serialize, Delimited, Says, AllPlain, Trim, ReadsBack, Page;
    TrimIff("text/html");
    ResponseSays(verb, f, code, title, "text/html", Page(code, title, message), more);
  }

  /** A header set by the application can announce a second length: then the response is
      not read back. */
  lemma SecondLengthIsRefused(verb: string, body: string, length: nat, more: string)
    requires length != |body| && !Bodyless(verb, 200)
    ensures var f := Fields([], false, [("Content-Length", ToString(length))]);
      Tidy(f, "OK", "application/json") && !ReadsBack(ReadResponse(verb, SendJson(f, 200, body) + more), body, more)
  {
    hide ReadResponse, SendJson, ToString, Agrees, Bodyless, OwnFields;
    var f := Fields([], false, [("Content-Length", ToString(length))]);
    JsonIsSelfDelimiting(verb, f, 200, body, more);
    OneHeader(f, "Content-Length", ToString(length));
    LengthLineAgrees(length, |body|);
    assert "Content-Length" + ": " + ToString(length) == "Content-Length: " + ToString(length);
  }

  lemma OneHeader(f: Fields, name: string, value: string)
    requires f.headers == [(name, value)] && name != "" && !Blank(name[0])
    ensures OwnFields(f) != [] && OwnFields(f)[|OwnFields(f)| - 1] == name + ": " + value
  {
    hide ModeLines, Unfold;
    var line := name + ": " + value;
    assert f.headers[..0] == [];
    assert FieldLines(f.headers) == FieldLines([]) + [line] == [line];
    UnfoldAppend(ModeLines(f.keepAlive), [line]);
    assert [] + [line] == [line];
    UnfoldSnoc([], line);
  }

  /** A code without body makes the reader take the body for what follows. */
  lemma BodylessCodeIsRefused(verb: string, f: Fields, body: string, more: string)
    requires Tidy(f, "OK", "application/json") && body != ""
    ensures !ReadsBack(ReadResponse(verb, SendJson(f, 204, body) + more), body, more)
  {
    hide ReadResponse, SendJson, AllAgree, OwnFields;
    JsonIsSelfDelimiting(verb, f, 204, body, more);
  }
}

/** The response object; its map fields are held as entries in iteration order. */
module HttpResponseObjects {
  import opened Decimal
  import opened HttpResponses

  class HttpResponse {
    var data: string
    var fields: Fields

    constructor (fields: Fields)
      ensures this.fields == fields && data == ""
    {
      this.fields := fields;
      data := "";
    }

    method AppendFields(list: seq<(string, string)>)
      modifies this`data
      ensures data == old(data) + Join(FieldLines(list))
    {
      hide Join;
      EmptyJoin();
      var i := 0;
      while i < |list|
        invariant 0 <= i <= |list|
        invariant data == old(data) + Join(FieldLines(list[..i]))
      {
        data := data + (list[i].0 + ": " + list[i].1 + "\r\n");
        i := i + 1;
        assert list[..i][..i - 1] == list[..i - 1];
        JoinSnoc(FieldLines(list[..i - 1]), list[i - 1].0 + ": " + list[i - 1].1);
      }
      assert list[..|list|] == list;
    }

    method AppendCookies()
      modifies this`data
      ensures data == old(data) + Join(CookieLines(fields.cookies))
    {
      hide Join;
      var list, i := fields.cookies, 0;
      EmptyJoin();
      while i < |list|
        invariant 0 <= i <= |list|
        invariant data == old(data) + Join(CookieLines(list[..i]))
      {
        var line := "Set-Cookie: " + list[i].0 + "=" + list[i].1 + "; Path=/; Max-Age=1800";
        data := data + (line + "\r\n");
        i := i + 1;
        assert list[..i][..i - 1] == list[..i - 1];
        JoinSnoc(CookieLines(list[..i - 1]), line);
      }
      assert list[..|list|] == list;
    }

    method BuildResponseHeader(code: int, text: string, kind: string, length: int, extra: seq<(string, string)>)
      returns (size: nat)
      modifies this`data
      ensures data == Join(HeadLines(fields, code, text, kind, length, extra)) + "\r\n" && size == |data|
    {
      hide Join, CookieLines, FieldLines, TopLines, ModeLines;
      AppendTop(code, text, kind, length);
      var top, mode := TopLines(code, text, kind, length), ModeLines(fields.keepAlive);
      AppendCookies();
      JoinAppend(top, CookieLines(fields.cookies));
      AppendMode();
      JoinAppend(top + CookieLines(fields.cookies), mode);
      AppendFields(fields.headers);
      JoinAppend(top + CookieLines(fields.cookies) + mode, FieldLines(fields.headers));
      AppendFields(extra);
      JoinAppend(top + CookieLines(fields.cookies) + mode + FieldLines(fields.headers), FieldLines(extra));
      data := data + "\r\n";
      size := |data|;
    }

    /** The status line and the two fields every response has; earlier data is dropped. */
    method AppendTop(code: int, text: string, kind: string, length: int)
      modifies this`data
      ensures data == Join(TopLines(code, text, kind, length))
    {
      hide Join, ToString;
      data := "HTTP/1.1 " + ToString(code) + " " + text + "\r\n";
      data := data + ("Content-Type: " + kind + "\r\n");
      data := data + ("Content-Length: " + ToString(length) + "\r\n");
      JoinThree("HTTP/1.1 " + ToString(code) + " " + text, "Content-Type: " + kind,
                "Content-Length: " + ToString(length));
    }

    method AppendMode()
      modifies this`data
      ensures data == old(data) + Join(ModeLines(fields.keepAlive))
    {
      hide Join;
      if fields.keepAlive {
        data := data + "Connection: keep-alive\r\n";
        data := data + "Keep-Alive: timeout=5\r\n";
        JoinTwo("Connection: keep-alive", "Keep-Alive: timeout=5");
      } else {
        data := data + "Connection: close\r\n";
        JoinOne("Connection: close");
      }
    }

    method SendJson(code: int, json: string)
      modifies this`data
      ensures data == HttpResponses.SendJson(fields, code, json)
    {
      hide HeadLines;
      data := "";
      var size := BuildResponseHeader(code, "OK", "application/json", ToInt32(|json|), []);
      data := data + json;
    }

    method SendText(code: int, title: string, message: string)
      modifies this`data
      ensures data == HttpResponses.SendText(fields, code, title, message)
    {
      hide HeadLines, ToString;
      var html := "<html><head><title>" + title + "</title></head>";
      html := html + ("<body><h1>" + ToString(code) + " " + title + "</h1>");
      html := html + ("<p>" + message + "</p></body></html>");
      assert html == Page(code, title, message);
      var size := BuildResponseHeader(code, title, "text/html", ToInt32(|html|), []);
      data := data + html;
    }
  }

  lemma {:induction false} JoinAppend(a: seq<string>, b: seq<string>)
    ensures Join(a + b) == Join(a) + Join(b)
  {
    if b == [] {
      assert a + b == a;
    } else {
      hide Join;
      var front, line := b[..|b| - 1], b[|b| - 1];
      assert a + b == (a + front) + [line] && b == front + [line];
      JoinAppend(a, front);
      JoinSnoc(a + front, line);
      JoinSnoc(front, line);
    }
  }

  lemma EmptyJoin()
    ensures Join([]) == ""
  {
  }

  lemma JoinOne(a: string)
    ensures Join([a]) == a + "\r\n"
  {
    JoinSnoc([], a);
    assert [] + [a] == [a];
  }

  lemma JoinTwo(a: string, b: string)
    ensures Join([a, b]) == a + "\r\n" + (b + "\r\n")
  {
    JoinOne(a);
    JoinSnoc([a], b);
    assert [a] + [b] == [a, b];
  }

  lemma JoinThree(a: string, b: string, c: string)
    ensures Join([a, b, c]) == a + "\r\n" + (b + "\r\n") + (c + "\r\n")
  {
    JoinTwo(a, b);
    JoinSnoc([a, b], c);
    assert [a, b] + [c] == [a, b, c];
  }
}
