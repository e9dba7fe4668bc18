/** `HttpRequest`: reading the request line, header lines, the body and form data. */
module HttpText {
  import opened Decimal
  import opened Strings

  /** The fields of `HttpBase` that the parser fills. */
  datatype Request = Request(
    verb: string, url: string, version: string, headers: map<string, string>,
    contentLength: int, connection: string, keepAlive: bool, body: string, form: map<string, string>)

  /** `HttpBase::init`. */
  const BLANK := Request("", "", "", map[], 0, "", false, "", map[])

  // ---- library functions ----

  /** `isspace` in the default locale. */
  predicate IsSpace(c: char) { c in {' ', '\t', '\n', '\r', '\U{0B}', '\U{0C}'} }

  function SkipSpace(s: string): (r: string)
    ensures |r| <= |s| && (r == [] || !IsSpace(r[0]))
  {
    if s == [] || !IsSpace(s[0]) then s else SkipSpace(s[1..])
  }

  /** The length of the leading run without white space. */
  function WordLength(s: string): (n: nat)
    ensures n <= |s| && (n < |s| ==> IsSpace(s[n]))
    ensures forall i :: 0 <= i < n ==> !IsSpace(s[i])
  {
    if s == [] || IsSpace(s[0]) then 0 else 1 + WordLength(s[1..])
  }

  /** `stream >> word`: the next word, empty at the end, and the remaining text. */
  function NextWord(s: string): (string, string) {
    var t := SkipSpace(s);
    (t[..WordLength(t)], t[WordLength(t)..])
  }

  function DigitRun(s: string): (n: nat)
    ensures n <= |s| && AllDigits(s[..n]) && (n < |s| ==> !IsDigit(s[n]))
  {
    if s == [] || !IsDigit(s[0]) then 0
    else
      var n := DigitRun(s[1..]);
      assert s[..1 + n] == [s[0]] + s[1..][..n];
      1 + n
  }

  datatype Int = NoInt | AnInt(n: int)

  const INT_MAX := 0x7FFF_FFFF

  /** `std::stoi`: leading space, a sign, digits, anything after; `NoInt` is an exception. */
  function Stoi(s: string): Int {
    var t := SkipSpace(s);
    var negative := t != [] && t[0] == '-';
    var u := if t != [] && (t[0] == '-' || t[0] == '+') then t[1..] else t;
    var k := DigitRun(u);
    if k == 0 then NoInt
    else
      var v: int := Value(u[..k]);
      var n := if negative then -v else v;
      if -INT_MAX - 1 <= n <= INT_MAX then AnInt(n) else NoInt
  }

  /** `s.find(t) != npos`. */
  predicate Contains(s: string, t: string) {
    t <= s || (s != [] && Contains(s[1..], t))
  }

  /** It tells whether `t` stands somewhere in `s`. */
  lemma {:induction false} ContainsIff(s: string, t: string)
    ensures Contains(s, t) <==> exists i :: 0 <= i <= |s| && t <= s[i..]
  {
    if t <= s {
      assert s[0..] == s && t <= s[0..];
    } else if s == [] {
      assert forall i :: 0 <= i <= |s| ==> s[i..] == s;
    } else {
      ContainsIff(s[1..], t);
      if i :| 0 <= i <= |s| && t <= s[i..] {
        assert i > 0 by { assert s[0..] == s; }
        assert s[i..] == s[1..][i - 1..];
      }
      if j :| 0 <= j <= |s[1..]| && t <= s[1..][j..] {
        assert s[1..][j..] == s[j + 1..];
      }
    }
  }

  // ---- the request line ----

  datatype LineResult = Rejected | Accepted(req: Request)

  function ParseRequestLine(req: Request, line: string): LineResult {
    var (verb, s1) := NextWord(line);
    var (url, s2) := NextWord(s1);
    var (version, _) := NextWord(s2);
    if verb == "" || url == "" || version == "" then Rejected
    else Accepted(req.(verb := verb, url := url, version := version))
  }

  // ---- header lines ----

  function StripBlanks(s: string): (r: string)
    ensures |r| <= |s| && (r == [] || (r[0] != ' ' && r[0] != '\t'))
  {
    if s != [] && (s[0] == ' ' || s[0] == '\t') then StripBlanks(s[1..]) else s
  }

  function StripCr(s: string): string {
    if s != [] && s[|s| - 1] == '\r' then s[..|s| - 1] else s
  }

  /** End of the headers, a line read (or ignored), or the exception of `std::stoi`. */
  datatype HeaderResult = End | Next(req: Request) | Throws(req: Request)

  /** Storing one header field, with the fields that have a meaning of their own. */
  function SetHeader(req: Request, key: string, value: string): HeaderResult {
    var r := req.(headers := req.headers[key := value]);
    if key == "Content-Length" then
      match Stoi(value)
      case NoInt => Throws(r)
      case AnInt(n) => Next(r.(contentLength := n))
    else if key == "connection" then Next(r.(connection := value, keepAlive := value == "keep-alive"))
    else Next(r)
  }

  function ParseHeader(req: Request, line: string): HeaderResult {
    if line == "\r\n" || line == "" then End
    else
      var pos := Find(line, ':');
      if pos == |line| then Next(req)
      else SetHeader(req, line[..pos], StripCr(StripBlanks(line[pos + 1..])))
  }

  // ---- the body ----

  /** The field that one piece of a form body sets, if it has an equals sign. */
  function SetField(form: map<string, string>, piece: string): map<string, string> {
    var pos := Find(piece, '=');
    if pos == |piece| then form else form[piece[..pos] := piece[pos + 1..]]
  }

  /** The loop of `parseFormData` over the pieces that `getline` cuts at `&`. */
  function ParseForm(body: string, form: map<string, string>): map<string, string>
    decreases |body|
  {
    if body == [] then form
    else
      var pos := Find(body, '&');
      if pos == |body| then SetField(form, body) else ParseForm(body[pos + 1..], SetField(form, body[..pos]))
  }

  const FORM_TYPE := "application/x-www-form-urlencoded"

  function ParseBody(req: Request, body: string): Request {
    var kind := if "Content-Type" in req.headers then req.headers["Content-Type"] else "";
    req.(body := body, form := if Contains(kind, FORM_TYPE) then ParseForm(body, map[]) else req.form)
  }

  // ---- reading back what a client prints ----

  ghost predicate Word(s: string) {
    s != [] && forall i :: 0 <= i < |s| ==> !IsSpace(s[i]) && s[i] != '\0'
  }

  lemma {:induction false} WordLengthIs(w: string, rest: string)
    requires forall i :: 0 <= i < |w| ==> !IsSpace(w[i])
    requires rest == [] || IsSpace(rest[0])
    ensures WordLength(w + rest) == |w|
  {
    if w == [] {
      assert w + rest == rest;
    } else {
      assert (w + rest)[1..] == w[1..] + rest;
      WordLengthIs(w[1..], rest);
    }
  }

  lemma NextWordIs(w: string, rest: string)
    requires Word(w) && (rest == [] || IsSpace(rest[0]))
    ensures NextWord(w + rest) == (w, rest) && NextWord(" " + (w + rest)) == (w, rest)
  {
    WordLengthIs(w, rest);
    assert (w + rest)[..|w|] == w && (w + rest)[|w|..] == rest;
    assert SkipSpace(w + rest) == w + rest;
    assert (" " + (w + rest))[1..] == w + rest;
    assert SkipSpace(" " + (w + rest)) == w + rest;
  }

  /** Three words separated by single spaces are read back. */
  lemma RequestLineIs(req: Request, verb: string, url: string, version: string)
    requires Word(verb) && Word(url) && Word(version)
    ensures ParseRequestLine(req, verb + " " + url + " " + version) ==
      Accepted(req.(verb := verb, url := url, version := version))
  {
    hide NextWord;
    var s2 := " " + (version + "");
    var s1 := " " + (url + s2);
    assert version + "" == version;
    assert verb + " " + url + " " + version == verb + s1;
    NextWordIs(verb, s1);
    NextWordIs(url, s2);
    NextWordIs(version, "");
  }

  ghost predicate AllSpace(s: string) { forall i :: 0 <= i < |s| ==> IsSpace(s[i]) }

  ghost predicate SpaceFree(s: string) { forall i :: 0 <= i < |s| ==> !IsSpace(s[i]) }

  /** `s` is white space, then a word, then an end or white space. */
  ghost predicate StartsWith(s: string, w: string, rest: string) {
    && |w| + |rest| <= |s| && AllSpace(s[..|s| - |w| - |rest|]) && s[|s| - |w| - |rest|..] == w + rest
    && SpaceFree(w) && (rest == [] || IsSpace(rest[0]))
  }

  lemma {:induction false} SkipSpaceIs(s: string)
    ensures var t := SkipSpace(s); AllSpace(s[..|s| - |t|]) && s[|s| - |t|..] == t
  {
    if s != [] && IsSpace(s[0]) {
      SkipSpaceIs(s[1..]);
      var t := SkipSpace(s);
      assert forall i :: 0 < i < |s| - |t| ==> s[i] == s[1..][..|s| - 1 - |t|][i - 1];
    }
  }

  lemma {:induction false} SkipSpaceAway(s: string, n: nat)
    requires n <= |s| && AllSpace(s[..n]) && (n == |s| || !IsSpace(s[n]))
    ensures SkipSpace(s) == s[n..]
  {
    if n > 0 {
      assert s[0] == s[..n][0];
      assert s[1..][..n - 1] == s[..n][1..];
      SkipSpaceAway(s[1..], n - 1);
    }
  }

  lemma NextWordStarts(s: string)
    ensures var (v, left) := NextWord(s); StartsWith(s, v, left) && (v == "" <==> AllSpace(s))
  {
    hide IsSpace;
    var t := SkipSpace(s);
    SkipSpaceIs(s);
    var (v, left) := NextWord(s);
    assert t == v + left;
    if v != "" {
      assert s[|s| - |t|] == t[0];
    }
  }

  lemma OnlyWord(s: string, w: string, rest: string)
    requires w != "" && StartsWith(s, w, rest)
    ensures NextWord(s) == (w, rest)
  {
    hide IsSpace;
    var n := |s| - |w| - |rest|;
    assert s[n] == (w + rest)[0] == w[0];
    SkipSpaceAway(s, n);
    WordLengthIs(w, rest);
  }

  /** `>>` reads the next word, and nothing exactly if only white space is left. */
  lemma NextWordIff(s: string, w: string, rest: string)
    ensures var (v, left) := NextWord(s); StartsWith(s, v, left) && (v == "" <==> AllSpace(s))
    ensures w != "" && StartsWith(s, w, rest) ==> NextWord(s) == (w, rest)
  {
    hide NextWord, StartsWith;
    NextWordStarts(s);
    if w != "" && StartsWith(s, w, rest) {
      OnlyWord(s, w, rest);
    }
  }

  predicate IsSign(sign: string) { sign == "" || (|sign| == 1 && (sign[0] == '-' || sign[0] == '+')) }

  function Signed(sign: string, n: nat): int { if sign != "" && sign[0] == '-' then 0 - n else n }

  /** `s` is white space, a sign or none, digits, and text that does not go on with a digit. */
  ghost predicate Numeral(s: string, space: string, sign: string, digits: string, rest: string) {
    && s == space + (sign + (digits + rest)) && AllSpace(space) && IsSign(sign)
    && digits != "" && AllDigits(digits) && (rest == "" || !IsDigit(rest[0]))
  }

  ghost predicate Reads(s: string, n: int) {
    exists space, sign, digits, rest ::
      Numeral(s, space, sign, digits, rest) && n == Signed(sign, Value(digits))
  }

  lemma {:induction false} DigitRunOf(digits: string, rest: string)
    requires AllDigits(digits) && (rest == "" || !IsDigit(rest[0]))
    ensures DigitRun(digits + rest) == |digits| && (digits + rest)[..|digits|] == digits
  {
    if digits == "" {
      assert digits + rest == rest;
    } else {
      assert (digits + rest)[1..] == digits[1..] + rest;
      DigitRunOf(digits[1..], rest);
    }
  }

  lemma StoiOfNumeral(s: string, space: string, sign: string, digits: string, rest: string)
    requires Numeral(s, space, sign, digits, rest)
    ensures var n := Signed(sign, Value(digits));
      Stoi(s) == if -INT_MAX - 1 <= n <= INT_MAX then AnInt(n) else NoInt
  {
    hide Value, DigitRun;
    var t := sign + (digits + rest);
    assert s[..|space|] == space && s[|space|..] == t;
    assert t[0] == if sign == "" then digits[0] else sign[0];
    assert IsDigit(digits[0]);
    SkipSpaceAway(s, |space|);
    DigitRunOf(digits, rest);
    if sign == "" {
      assert t == digits + rest;
    } else {
      assert t[1..] == digits + rest;
    }
  }

  lemma NumeralOf(s: string, space: string, sign: string, u: string)
    requires s == space + (sign + u) && AllSpace(space) && IsSign(sign) && DigitRun(u) > 0
    ensures Numeral(s, space, sign, u[..DigitRun(u)], u[DigitRun(u)..])
  {
    hide IsSpace;
    assert u == u[..DigitRun(u)] + u[DigitRun(u)..];
  }

  lemma StoiIsNumeral(s: string)
    requires Stoi(s).AnInt?
    ensures Reads(s, Stoi(s).n)
  {
    hide Value, IsSpace, DigitRun, Numeral, SkipSpace;
    SkipSpaceIs(s);
    var t := SkipSpace(s);
    var space := s[..|s| - |t|];
    var sign := if t != [] && (t[0] == '-' || t[0] == '+') then t[..1] else "";
    var u := t[|sign|..];
    assert t == sign + u && s == space + t;
    NumeralOf(s, space, sign, u);
  }

  /** For every text: `std::stoi` gives the number that stands there after white space and an
      optional sign, exactly if it fits a 32-bit int. */
  lemma StoiIff(s: string, n: int)
    ensures Stoi(s) == AnInt(n) <==> Reads(s, n) && -INT_MAX - 1 <= n <= INT_MAX
  {
    if Stoi(s) == AnInt(n) {
      StoiIsNumeral(s);
    }
    hide Stoi, Numeral, Value;
    if Reads(s, n) {
      var space, sign, digits, rest :|
        Numeral(s, space, sign, digits, rest) && n == Signed(sign, Value(digits));
      StoiOfNumeral(s, space, sign, digits, rest);
    }
  }

  /** The first three words of a line. */
  ghost predicate ThreeWords(line: string, a: string, b: string, c: string) {
    && a != "" && b != "" && c != ""
    && exists s, t, u :: StartsWith(line, a, s) && StartsWith(s, b, t) && StartsWith(t, c, u)
  }

  /** For every line: it is accepted with its first three words, whatever stands between and
      after them, and refused exactly if it has fewer. */
  lemma RequestLineIff(req: Request, line: string)
    ensures match ParseRequestLine(req, line)
      case Accepted(r) =>
        ThreeWords(line, r.verb, r.url, r.version) && r == req.(verb := r.verb, url := r.url, version := r.version)
      case Rejected => forall a, b, c :: !ThreeWords(line, a, b, c)
  {
    hide NextWord, StartsWith;
    var (verb, s) := NextWord(line);
    var (url, t) := NextWord(s);
    var (version, u) := NextWord(t);
    NextWordIff(line, verb, s);
    NextWordIff(s, url, t);
    NextWordIff(t, version, u);
    forall a, b, c | ThreeWords(line, a, b, c) ensures a == verb && b == url && c == version {
      var s', t', u' :| StartsWith(line, a, s') && StartsWith(s', b, t') && StartsWith(t', c, u');
      NextWordIff(line, a, s');
      NextWordIff(s', b, t');
      NextWordIff(t', c, u');
    }
  }

  ghost predicate FieldName(k: string) { forall i :: 0 <= i < |k| ==> k[i] !in {':', '\r', '\n', '\0'} }

  ghost predicate FieldValue(v: string) {
    && (forall i :: 0 <= i < |v| ==> v[i] !in {'\r', '\n', '\0'})
    && (v == [] || v[0] !in {' ', '\t'})
  }

  predicate Blanks(s: string) { forall i :: 0 <= i < |s| ==> s[i] == ' ' || s[i] == '\t' }

  /** Blanks, a value that starts with none, and a carriage return at the very end or none. */
  ghost predicate ValueText(s: string, blanks: string, v: string, cr: string) {
    && s == blanks + (v + cr) && Blanks(blanks) && (v + cr == "" || !Blanks((v + cr)[..1]))
    && (cr == "\r" || (cr == "" && (v == "" || v[|v| - 1] != '\r')))
  }

  /** A line with a colon: a name up to the first one, and the text of a value. */
  ghost predicate FieldLine(line: string, k: string, blanks: string, v: string, cr: string) {
    ':' !in k && line == k + ":" + (blanks + (v + cr)) && ValueText(blanks + (v + cr), blanks, v, cr)
  }

  lemma {:induction false} StripBlanksOf(blanks: string, rest: string)
    requires Blanks(blanks) && (rest == "" || !Blanks(rest[..1]))
    ensures StripBlanks(blanks + rest) == rest
  {
    if blanks == "" {
      assert blanks + rest == rest;
    } else {
      assert (blanks + rest)[1..] == blanks[1..] + rest;
      StripBlanksOf(blanks[1..], rest);
    }
  }

  lemma {:induction false} StripBlanksCuts(s: string)
    ensures var r := StripBlanks(s); Blanks(s[..|s| - |r|]) && s[|s| - |r|..] == r
  {
    if s != [] && (s[0] == ' ' || s[0] == '\t') {
      StripBlanksCuts(s[1..]);
      var n := |s| - |StripBlanks(s)|;
      assert s[..n] == [s[0]] + s[1..][..n - 1];
    }
  }

  /** Every line with a colon is stored under what stands before it, without the blanks and the
      carriage return around its value. */
  lemma FieldLineIs(req: Request, line: string, k: string, blanks: string, v: string, cr: string)
    requires FieldLine(line, k, blanks, v, cr)
    ensures ParseHeader(req, line) == SetHeader(req, k, v)
  {
    hide SetHeader, StripBlanks;
    assert line == k + [':'] + (blanks + (v + cr));
    CutAt(k, ':', blanks + (v + cr));
    StripBlanksOf(blanks, v + cr);
    assert StripCr(v + cr) == v;
    assert line[|k|] == ':';
  }

  lemma ValueParts(s: string) returns (blanks: string, v: string, cr: string)
    ensures ValueText(s, blanks, v, cr)
  {
    StripBlanksCuts(s);
    var value := StripBlanks(s);
    hide StripBlanks;
    blanks, v := s[..|s| - |value|], StripCr(value);
    cr := value[|v|..];
    assert value == v + cr && s == blanks + value;
  }

  /** And every line with a colon has such parts. */
  lemma EveryFieldLine(line: string) returns (k: string, blanks: string, v: string, cr: string)
    requires ':' in line
    ensures FieldLine(line, k, blanks, v, cr)
  {
    hide ValueText;
    var i :| 0 <= i < |line| && line[i] == ':';
    FindBefore(line, ':', i);
    var pos := Find(line, ':');
    hide Find;
    k := line[..pos];
    blanks, v, cr := ValueParts(line[pos + 1..]);
    ValueTextIs(line[pos + 1..], blanks, v, cr);
    assert line == k + ":" + line[pos + 1..];
  }

  lemma ValueTextIs(s: string, blanks: string, v: string, cr: string)
    requires ValueText(s, blanks, v, cr)
    ensures s == blanks + (v + cr)
  {
  }

  /** A header line printed as `name: value` is read back. */
  lemma HeaderLineIs(req: Request, k: string, v: string)
    requires FieldName(k) && FieldValue(v)
    ensures ParseHeader(req, k + ": " + v) == SetHeader(req, k, v)
  {
    hide ParseHeader, SetHeader;
    assert v + "" == v && k + ": " + v == k + ":" + (" " + v);
    FieldLineIs(req, k + ": " + v, k, " ", v, "");
  }

  /** For every line: only an empty one ends the headers, and one without a colon is
      skipped. */
  lemma HeaderLineIff(req: Request, line: string)
    ensures ParseHeader(req, line) == End <==> line == "" || line == "\r\n"
    ensures ':' !in line && line != "" && line != "\r\n" ==> ParseHeader(req, line) == Next(req)
  {
    hide SetHeader;
    if ':' !in line {
      FindNone(line, ':');
    }
    SetHeaderGoesOn(req, line);
  }

  lemma SetHeaderGoesOn(req: Request, line: string)
    ensures forall k, v :: SetHeader(req, k, v) != End
  {
  }

  // ---- form data ----

  /** What stands between two ampersands of a form body: a field, or text without an equals
      sign. */
  datatype Piece = Field(key: string, value: string) | Stray(text: string)

  ghost predicate GoodPieces(pieces: seq<Piece>) {
    forall i :: 0 <= i < |pieces| ==>
      match pieces[i]
      case Field(k, v) => '=' !in k && '&' !in k && '&' !in v
      case Stray(t) => '=' !in t && '&' !in t
  }

  function PieceText(p: Piece): string {
    match p
    case Field(k, v) => k + "=" + v
    case Stray(t) => t
  }

  function PrintForm(pieces: seq<Piece>): string {
    if pieces == [] then ""
    else PieceText(pieces[0]) + (if |pieces| == 1 then "" else "&" + PrintForm(pieces[1..]))
  }

  function LastWins(fields: seq<(string, string)>, m: map<string, string>): map<string, string> {
    if fields == [] then m else LastWins(fields[1..], m[fields[0].0 := fields[0].1])
  }

  function FieldsOf(pieces: seq<Piece>): seq<(string, string)> {
    if pieces == [] then []
    else (if pieces[0].Field? then [(pieces[0].key, pieces[0].value)] else []) + FieldsOf(pieces[1..])
  }

  lemma SetFieldIs(p: Piece, m: map<string, string>)
    requires GoodPieces([p])
    ensures '&' !in PieceText(p)
    ensures SetField(m, PieceText(p)) == if p.Field? then m[p.key := p.value] else m
  {
    assert [p][0] == p;
    match p
    case Field(k, v) =>
      assert PieceText(p) == k + ['='] + v;
      CutAt(k, '=', v);
    case Stray(t) => FindNone(t, '=');
  }

  lemma FieldsOfFirst(pieces: seq<Piece>, m: map<string, string>)
    requires pieces != []
    ensures var p := pieces[0];
      LastWins(FieldsOf(pieces), m) == LastWins(FieldsOf(pieces[1..]), if p.Field? then m[p.key := p.value] else m)
  {
    var p, rest := pieces[0], FieldsOf(pieces[1..]);
    if p.Field? {
      assert FieldsOf(pieces)[1..] == rest;
    } else {
      assert FieldsOf(pieces) == rest;
    }
  }

  /** A form body is read as its fields, the last one winning, and nothing else. */
  lemma {:induction false} FormIsReadBack(pieces: seq<Piece>, m: map<string, string>)
    requires GoodPieces(pieces)
    ensures ParseForm(PrintForm(pieces), m) == LastWins(FieldsOf(pieces), m)
  {
    if pieces != [] {
      var p, piece := pieces[0], PieceText(pieces[0]);
      assert forall i :: 0 <= i < |pieces[1..]| ==> pieces[1..][i] == pieces[i + 1];
      SetFieldIs(p, m);
      FieldsOfFirst(pieces, m);
      var m' := SetField(m, piece);
      FormIsReadBack(pieces[1..], m');
      hide SetField, PieceText, LastWins, FieldsOf, GoodPieces;
      var rest := PrintForm(pieces[1..]);
      if |pieces| == 1 {
        assert PrintForm(pieces) == piece && pieces[1..] == [] && rest == "";
        FindNone(piece, '&');
        OnePiece(piece, m);
      } else {
        assert PrintForm(pieces) == piece + ['&'] + rest;
        CutAt(piece, '&', rest);
      }
    }
  }

  lemma OnePiece(piece: string, m: map<string, string>)
    requires Find(piece, '&') == |piece|
    ensures ParseForm(piece, m) == SetField(m, piece) && ParseForm("", SetField(m, piece)) == SetField(m, piece)
  {
  }

  /** Every body has such pieces. */
  lemma {:induction false} EveryBodyIsAForm(body: string) returns (pieces: seq<Piece>)
    ensures GoodPieces(pieces) && PrintForm(pieces) == body
    decreases |body|
  {
    var pos := Find(body, '&');
    var first := APiece(body[..pos]);
    if pos == |body| {
      hide PieceText, Find;
      pieces := [first];
      assert body[..pos] == body;
    } else {
      var rest := EveryBodyIsAForm(body[pos + 1..]);
      var more := if rest == [] then [Stray("")] else rest;
      hide PieceText, Find;
      assert PrintForm(more) == body[pos + 1..] by { NoPieces(); }
      PrintCons(first, more);
      pieces := [first] + more;
      assert body == body[..pos] + "&" + body[pos + 1..];
    }
  }

  lemma PrintCons(p: Piece, rest: seq<Piece>)
    requires GoodPieces([p]) && GoodPieces(rest) && rest != []
    ensures GoodPieces([p] + rest) && PrintForm([p] + rest) == PieceText(p) + "&" + PrintForm(rest)
  {
    assert [p][0] == p && ([p] + rest)[1..] == rest;
    hide PieceText;
  }

  lemma NoPieces()
    ensures PrintForm([]) == "" == PrintForm([Stray("")]) && GoodPieces([Stray("")])
  {
  }

  lemma APiece(text: string) returns (p: Piece)
    requires '&' !in text
    ensures GoodPieces([p]) && PieceText(p) == text
  {
    var pos := Find(text, '=');
    if pos == |text| {
      p := Stray(text);
      assert text[..pos] == text;
    } else {
      p := Field(text[..pos], text[pos + 1..]);
      assert text == text[..pos] + "=" + text[pos + 1..];
    }
  }

  /** What `parseBody` stores, for every body and every Content-Type: the body as it is, and
      its fields exactly if the type has that of a form somewhere in it. */
  lemma ParseBodyIs(req: Request, pieces: seq<Piece>)
    requires GoodPieces(pieces)
    ensures var kind := if "Content-Type" in req.headers then req.headers["Content-Type"] else "";
      ParseBody(req, PrintForm(pieces)) == req.(
        body := PrintForm(pieces),
        form := if IsForm(kind) then LastWins(FieldsOf(pieces), map[]) else req.form)
  {
    hide ParseForm, Contains, PrintForm;
    FormIsReadBack(pieces, map[]);
    ContainsIff(if "Content-Type" in req.headers then req.headers["Content-Type"] else "", FORM_TYPE);
  }

  ghost predicate IsForm(kind: string) { exists i :: 0 <= i <= |kind| && FORM_TYPE <= kind[i..] }
}
