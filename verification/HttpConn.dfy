/** `HttpConn` and the parsing half of `HttpRequest` as objects and loops. */
module HttpConns {
  import opened Strings
  import opened HttpText
  import opened Http

  /** The loop of `parseHeaders` that erases leading blanks. */
  method EraseBlanks(text: string) returns (value: string)
    ensures value == StripBlanks(text)
  {
    value := text;
    while value != [] && (value[0] == ' ' || value[0] == '\t')
      invariant StripBlanks(value) == StripBlanks(text)
      decreases |value|
    {
      value := value[1..];
    }
  }

  /** `parseHeaders`. */
  method ParseHeaders(req: Request, line: string) returns (r: HeaderResult)
    ensures r == ParseHeader(req, line)
  {
    if line == "\r\n" || line == "" { return End; }
    var pos := Find(line, ':');
    if pos == |line| { return Next(req); }
    var value := EraseBlanks(line[pos + 1..]);
    if value != [] && value[|value| - 1] == '\r' {
      value := value[..|value| - 1];
    }
    return SetHeader(req, line[..pos], value);
  }

  /** `parseFormData`: the `getline` loop. */
  method ParseFormData(body: string) returns (form: map<string, string>)
    ensures form == ParseForm(body, map[])
  {
    hide Find;
    form := map[];
    var rest := body;
    while rest != []
      invariant ParseForm(rest, form) == ParseForm(body, map[])
      decreases |rest|
    {
      var end := Find(rest, '&');
      var piece := rest[..end];
      var tail := if end == |rest| then [] else rest[end + 1..];
      assert end == |rest| ==> piece == rest;
      assert ParseForm(rest, form) == ParseForm(tail, SetField(form, piece));
      rest := tail;
      form := StoreField(form, piece);
    }
  }

  /** The loop body of `parseFormData`. */
  method StoreField(form: map<string, string>, piece: string) returns (r: map<string, string>)
    ensures r == SetField(form, piece)
  {
    var pos := Find(piece, '=');
    if pos == |piece| { return form; }
    return form[piece[..pos] := piece[pos + 1..]];
  }

  class HttpConn {
    const buf: array<char>
    var readIdx: nat
    var phase: Phase
    var req: Request

    ghost predicate Valid()
      reads this
    {
      buf.Length == SIZE && readIdx <= SIZE
    }

    ghost function State(): (c: Conn)
      requires Valid()
      reads this, buf
      ensures Http.Valid(c)
    {
      Conn(buf[..], readIdx, phase, req)
    }

    constructor ()
      ensures Valid() && fresh(buf) && State() == Fresh()
    {
      buf := new char[SIZE](_ => '\0');
      readIdx := 0;
      phase := RequestLine;
      req := BLANK;
      new;
      assert buf[..] == seq(SIZE, _ => '\0');
    }

    /** The effect of a successful `recv` into the free part of the buffer. */
    method Read(data: string)
      requires Valid() && readIdx + |data| <= SIZE
      modifies this`readIdx, buf
      ensures Valid() && State() == Deliver(old(State()), data)
    {
      forall i | 0 <= i < |data| {
        buf[readIdx + i] := data[i];
      }
      assert buf[..] == old(buf[..])[..readIdx] + data + old(buf[..])[readIdx + |data|..];
      readIdx := readIdx + |data|;
    }

    /** `strstr` for a line end. */
    method FindLineEnd() returns (r: Scan)
      requires Valid()
      ensures r == FindLine(buf[..])
    {
      var i := 0;
      while i < SIZE
        invariant 0 <= i <= SIZE
        invariant FindLine(buf[..]) == Shift(FindLine(buf[i..]), i)
      {
        if buf[i] == '\0' { return NoLine; }
        if i + 1 < SIZE && buf[i] == '\r' && buf[i + 1] == '\n' { return LineAt(i); }
        assert buf[i..][1..] == buf[i + 1..];
        i := i + 1;
      }
      return RanOff;
    }

    /** `removeLine`: `memmove` to the front and a closing NUL. */
    method RemoveLine(n: nat)
      requires Valid() && (n > 0 || readIdx < SIZE)
      modifies this`readIdx, buf
      ensures Valid() && State() == Http.RemoveLine(old(State()), n)
    {
      if n >= readIdx {
        readIdx := 0;
        buf[0] := '\0';
        assert buf[..] == old(buf[..])[0 := '\0'];
      } else {
        var left := readIdx - n;
        MoveToFront(n, left);
        readIdx := left;
        buf[left] := '\0';
        assert buf[..] == (old(buf[..])[n..n + left] + old(buf[..])[left..])[left := '\0'];
      }
    }

    /** `memmove` of `count` characters from offset `n` to the front. */
    method MoveToFront(n: nat, count: nat)
      requires Valid() && n + count <= SIZE
      modifies buf
      ensures buf[..] == old(buf[..])[n..n + count] + old(buf[..])[count..]
    {
      var k := 0;
      while k < count
        invariant 0 <= k <= count
        invariant forall j :: 0 <= j < k ==> buf[j] == old(buf[n + j])
        invariant forall j :: k <= j < SIZE ==> buf[j] == old(buf[j])
      {
        buf[k] := buf[n + k];
        k := k + 1;
      }
    }

    /** The request-line phase, once the scan has found the line. */
    method TakeRequestLine(i: nat) returns (ok: bool)
      requires Valid() && phase == RequestLine && FindLine(buf[..]) == LineAt(i)
      modifies this, buf
      ensures Valid()
      ensures ok ==> Step(old(State())) == More(State())
      ensures !ok ==> Step(old(State())) == Halt(BadLine) && State() == old(State())
    {
      hide FindLine, ParseRequestLine, Http.RemoveLine;
      var r := ParseRequestLine(req, buf[..i]);
      if r.Rejected? { return false; }
      RemoveLine(i + 2);
      req := r.req;
      phase := Headers;
      return true;
    }

    /** One header line, taken out of the buffer and parsed. */
    method TakeHeader(i: nat)
      requires Valid() && phase == Headers && FindLine(buf[..]) == LineAt(i)
      modifies this, buf
      ensures Valid() && Step(old(State())) == More(State())
    {
      hide FindLine, ParseHeader, Http.RemoveLine;
      var line := buf[..i];
      RemoveLine(i + 2);
      var r := ParseHeaders(req, line);
      match r
      case End => phase := Body;
      case Next(q) => req := q;
      case Throws(q) => req := q; phase := Crashed;
    }

    /** The body phase, once the body is there. */
    method TakeBody()
      requires Valid() && phase == Body && req.contentLength <= readIdx && (req.contentLength != 0 || readIdx < SIZE)
      modifies this, buf
      ensures Valid() && Step(old(State())) == More(State())
    {
      hide ParseBody, Http.RemoveLine;
      var n := req.contentLength;
      if n < 0 {
        phase := Crashed;
      } else {
        var q := ParseBody(req, buf[..n]);
        RemoveLine(n);
        req := q;
        phase := Done;
      }
    }

    /** `parseHttpRequest`. */
    method ParseHttpRequest() returns (reason: Reason)
      requires Valid()
      modifies this, buf
      ensures Valid() && (State(), reason) == ParseRequest(old(State()))
    {
      hide FindLine, OnLine, ParseBody, Http.RemoveLine;
      while true
        invariant Valid() && ParseRequest(State()) == ParseRequest(old(State()))
        decreases Rank(phase), readIdx, if buf[0] == '\0' then 0 else 1
      {
        ghost var c := State();
        if phase == RequestLine || phase == Headers {
          var scan := FindLineEnd();
          if scan.NoLine? { return NeedMore; }
          if scan.RanOff? { return Overrun; }
          if phase == RequestLine {
            var ok := TakeRequestLine(scan.i);
            if !ok { return BadLine; }
          } else {
            TakeHeader(scan.i);
          }
        } else if phase == Body {
          if readIdx < req.contentLength { return NeedMore; }
          if req.contentLength == 0 && readIdx == SIZE { return Overrun; }
          TakeBody();
        } else if phase == Done {
          return Complete;
        } else {
          return Crash;
        }
        StepShrinks(c);
      }
    }
  }

  /** A scan result seen from `k` characters further back. */
  function Shift(r: Scan, k: nat): Scan {
    match r
    case LineAt(i) => LineAt(i + k)
    case other => other
  }
}
