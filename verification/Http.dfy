/** `HttpConn`: the request state machine over the fixed read buffer. */
module Http {
  import opened Strings
  import opened HttpText

  const SIZE := 4096

  /** `Crashed`: an exception left the parser; nothing catches it. */
  datatype Phase = RequestLine | Headers | Body | Done | Crashed

  /** `m_read_buf`, `m_read_idx`, `m_parse_state` and the request read so far. */
  datatype Conn = Conn(buf: string, len: nat, phase: Phase, req: Request)

  predicate Valid(c: Conn) { |c.buf| == SIZE && c.len <= SIZE }

  /** `init`. */
  function Fresh(): (c: Conn)
    ensures Valid(c)
  {
    Conn(seq(SIZE, _ => '\0'), 0, RequestLine, BLANK)
  }

  /** `strstr(m_read_buf, "\r\n")`: it reads up to the first NUL, wherever that is, and past
      the array if there is none. */
  datatype Scan = LineAt(i: nat) | NoLine | RanOff

  function FindLine(s: string): (r: Scan)
    ensures r.LineAt? ==> r.i + 2 <= |s|
  {
    if s == [] then RanOff
    else if s[0] == '\0' then NoLine
    else if |s| >= 2 && s[0] == '\r' && s[1] == '\n' then LineAt(0)
    else match FindLine(s[1..])
      case LineAt(i) => LineAt(i + 1)
      case other => other
  }

  /** `removeLine`; removing nothing from a full buffer would put the closing NUL past the
      array. */
  function RemoveLine(c: Conn, n: nat): (r: Conn)
    requires Valid(c) && (n > 0 || c.len < SIZE)
    ensures Valid(r) && r.phase == c.phase && r.req == c.req
    ensures r.len == (if n >= c.len then 0 else c.len - n) && r.len < SIZE && r.buf[r.len] == '\0'
    ensures r.buf[..r.len] == if n >= c.len then "" else c.buf[n..c.len]
  {
    if n >= c.len then c.(len := 0, buf := c.buf[0 := '\0'])
    else
      var moved := c.buf[n..c.len] + c.buf[c.len - n..];
      c.(len := c.len - n, buf := moved[c.len - n := '\0'])
  }

  /** The effect of one successful `recv`. */
  function Deliver(c: Conn, data: string): (r: Conn)
    requires Valid(c) && c.len + |data| <= SIZE
    ensures Valid(r) && r.len == c.len + |data| && r.buf[..r.len] == c.buf[..c.len] + data
    ensures forall i :: r.len <= i < SIZE ==> r.buf[i] == c.buf[i]
  {
    c.(buf := c.buf[..c.len] + data + c.buf[c.len + |data|..], len := c.len + |data|)
  }

  /** What a complete line does to the phase and the request. */
  datatype LineEffect = Refuse | Go(phase: Phase, req: Request)

  function OnLine(phase: Phase, req: Request, line: string): (e: LineEffect)
    requires phase == RequestLine || phase == Headers
    ensures e.Go? ==> e.phase != RequestLine
  {
    if phase == RequestLine then
      match ParseRequestLine(req, line)
      case Rejected => Refuse
      case Accepted(r) => Go(Headers, r)
    else
      match ParseHeader(req, line)
      case End => Go(Body, req)
      case Next(r) => Go(Headers, r)
      case Throws(r) => Go(Crashed, r)
  }

  /** Why `parseHttpRequest` stops. */
  datatype Reason = NeedMore | BadLine | Complete | Crash | Overrun

  datatype Turn<T> = More(next: T) | Halt(reason: Reason)

  /** One turn of the loops of `parseHttpRequest`. */
  function Step(c: Conn): (t: Turn<Conn>)
    requires Valid(c)
    ensures t.More? ==> Valid(t.next)
  {
    match c.phase
    case Done => Halt(Complete)
    case Crashed => Halt(Crash)
    case Body =>
      var n := c.req.contentLength;
      if c.len < n then Halt(NeedMore)
      else if n < 0 then More(c.(phase := Crashed))
      else if n == 0 && c.len == SIZE then Halt(Overrun)
      else More(RemoveLine(c, n).(phase := Done, req := ParseBody(c.req, c.buf[..n])))
    case _ =>
      match FindLine(c.buf)
      case NoLine => Halt(NeedMore)
      case RanOff => Halt(Overrun)
      case LineAt(i) =>
        match OnLine(c.phase, c.req, c.buf[..i])
        case Refuse => Halt(BadLine)
        case Go(phase, req) => More(RemoveLine(c, i + 2).(phase := phase, req := req))
  }

  function Rank(p: Phase): nat {
    match p
    case RequestLine => 3
    case Headers => 2
    case Body => 1
    case _ => 0
  }

  lemma StepShrinks(c: Conn)
    requires Valid(c) && Step(c).More?
    ensures var d := Step(c).next;
      Rank(d.phase) < Rank(c.phase) || (Rank(d.phase) == Rank(c.phase) &&
        (d.len < c.len || (d.len == c.len && d.buf[0] == '\0' && c.buf[0] != '\0')))
  {
  }

  /** `parseHttpRequest`: turns until it stops. */
  function ParseRequest(c: Conn): (Conn, Reason)
    requires Valid(c)
    ensures Valid(ParseRequest(c).0)
    decreases Rank(c.phase), c.len, if c.buf[0] == '\0' then 0 else 1
  {
    match Step(c)
    case Halt(reason) => (c, reason)
    case More(d) => StepShrinks(c); ParseRequest(d)
  }

  // ---- the same machine on the received bytes alone ----

  /** The phase, the request and the received bytes not consumed yet. */
  datatype View = View(phase: Phase, req: Request, pending: string)

  function ViewOf(c: Conn): View
    requires Valid(c)
  {
    View(c.phase, c.req, c.buf[..c.len])
  }

  datatype Line = Missing | EndsAt(i: nat)

  /** Where the first line of the received bytes ends; a NUL hides what follows it. */
  function LineEnd(s: string): (r: Line)
    ensures r.EndsAt? ==> r.i + 2 <= |s|
  {
    if s == [] || s[0] == '\0' then Missing
    else if |s| >= 2 && s[0] == '\r' && s[1] == '\n' then EndsAt(0)
    else match LineEnd(s[1..])
      case Missing => Missing
      case EndsAt(i) => EndsAt(i + 1)
  }

  /** Reference: one turn that looks at nothing but the received bytes. */
  function Ideal(v: View): (t: Turn<View>)
    ensures t.More? ==>
      (Rank(t.next.phase) < Rank(v.phase) || (Rank(t.next.phase) == Rank(v.phase) && |t.next.pending| < |v.pending|))
  {
    match v.phase
    case Done => Halt(Complete)
    case Crashed => Halt(Crash)
    case Body =>
      var n := v.req.contentLength;
      if |v.pending| < n then Halt(NeedMore)
      else if n < 0 then More(v.(phase := Crashed))
      else More(View(Done, ParseBody(v.req, v.pending[..n]), v.pending[n..]))
    case _ =>
      match LineEnd(v.pending)
      case Missing => Halt(NeedMore)
      case EndsAt(i) =>
        match OnLine(v.phase, v.req, v.pending[..i])
        case Refuse => Halt(BadLine)
        case Go(phase, req) => More(View(phase, req, v.pending[i + 2..]))
  }

  function IdealParse(v: View): (View, Reason)
    decreases Rank(v.phase), |v.pending|
  {
    match Ideal(v)
    case Halt(reason) => (v, reason)
    case More(w) => IdealParse(w)
  }

  // ---- when the buffer machine looks at the received bytes only ----

  /** The byte after the received ones is NUL, so the scan cannot pass them. */
  predicate Clean(c: Conn)
    requires Valid(c)
  {
    c.len < SIZE && c.buf[c.len] == '\0'
  }

  /** The line that the scan finds, if any, lies within the received bytes, and the scan
      ends within the array. */
  predicate Fitting(c: Conn)
    requires Valid(c)
  {
    match FindLine(c.buf)
    case LineAt(i) => i + 2 <= c.len
    case NoLine => true
    case RanOff => false
  }

  ghost predicate SameScan(r: Scan, l: Line) {
    (r.NoLine? && l.Missing?) || (r.LineAt? && l.EndsAt? && r.i == l.i)
  }

  /** The scan of the whole array agrees with the received bytes exactly when it fits. */
  lemma {:induction false} ScanIff(s: string, n: nat)
    requires n <= |s|
    ensures SameScan(FindLine(s), LineEnd(s[..n])) <==>
      FindLine(s).NoLine? || (FindLine(s).LineAt? && FindLine(s).i + 2 <= n)
  {
    if s != [] && n > 0 && s[0] != '\0' {
      var p := s[..n];
      assert p[1..] == s[1..][..n - 1];
      ScanIff(s[1..], n - 1);
    }
  }

  lemma {:induction false} CleanScan(s: string, n: nat)
    requires n < |s| && s[n] == '\0'
    ensures FindLine(s).NoLine? || (FindLine(s).LineAt? && FindLine(s).i + 2 <= n)
  {
    if n > 0 && s[0] != '\0' {
      CleanScan(s[1..], n - 1);
    }
  }

  predicate Scanning(p: Phase) { p == RequestLine || p == Headers }

  /** A turn on the buffer does what the reference does. */
  ghost predicate Faithful(c: Conn)
    requires Valid(c)
  {
    match Step(c)
    case Halt(reason) => Ideal(ViewOf(c)) == Halt(reason)
    case More(d) => Ideal(ViewOf(c)) == More(ViewOf(d))
  }

  /** An empty body is closed with a NUL after the received bytes. */
  predicate Room(c: Conn) { c.phase == Body && c.req.contentLength == 0 ==> c.len < SIZE }

  /** A buffer that fits makes the turn faithful, and so does any phase without a scan. */
  lemma FittingIsFaithful(c: Conn)
    requires Valid(c) && Room(c) && (Scanning(c.phase) ==> Fitting(c))
    ensures Faithful(c)
  {
    if Scanning(c.phase) {
      ScanIff(c.buf, c.len);
      if FindLine(c.buf).LineAt? {
        var i := FindLine(c.buf).i;
        assert c.buf[..c.len][..i] == c.buf[..i];
        assert c.buf[..c.len][i + 2..] == c.buf[i + 2..c.len];
      }
    } else if c.phase == Body {
      var n := c.req.contentLength;
      if 0 <= n <= c.len {
        assert c.buf[..c.len][..n] == c.buf[..n];
        assert c.buf[..c.len][n..] == c.buf[n..c.len];
      }
    }
  }

  lemma {:induction false} LineWithinIsFound(s: string, n: nat)
    requires n <= |s| && LineEnd(s[..n]).EndsAt?
    ensures FindLine(s) == LineAt(LineEnd(s[..n]).i)
  {
    var p := s[..n];
    if !(|p| >= 2 && p[0] == '\r' && p[1] == '\n') {
      assert p[1..] == s[1..][..n - 1];
      LineWithinIsFound(s[1..], n - 1);
    }
  }

  /** In a scanning phase the turn is faithful exactly when the scan fits. Otherwise it
      takes bytes for a line that were never received. */
  lemma FaithfulIff(c: Conn)
    requires Valid(c) && Scanning(c.phase)
    ensures Faithful(c) <==> Fitting(c)
  {
    if Fitting(c) {
      FittingIsFaithful(c);
    } else {
      var p := c.buf[..c.len];
      if LineEnd(p).EndsAt? {
        LineWithinIsFound(c.buf, c.len);
      }
      hide OnLine, RemoveLine, FindLine, LineEnd;
    }
  }

  /** What goes wrong then: a started line that is still arriving is dropped whole. */
  lemma StaleLineDropsInput(c: Conn)
    requires Valid(c) && c.phase == Headers && FindLine(c.buf).LineAt? && FindLine(c.buf).i + 2 > c.len
    ensures Ideal(ViewOf(c)) == Halt(NeedMore)
    ensures Step(c).More? && ViewOf(Step(c).next).pending == ""
  {
    var p := c.buf[..c.len];
    if LineEnd(p).EndsAt? {
      LineWithinIsFound(c.buf, c.len);
    }
  }

  // ---- whole parses ----

  lemma CleanFits(c: Conn)
    requires Valid(c) && Clean(c)
    ensures Fitting(c)
  {
    CleanScan(c.buf, c.len);
  }

  lemma StepIsClean(c: Conn)
    requires Valid(c) && Step(c).More?
    ensures Clean(Step(c).next) || (Step(c).next == c.(phase := Crashed))
  {
    hide OnLine, ParseBody, FindLine;
  }

  /** From a buffer that fits, the whole parse is the reference parse of the received bytes:
      every later turn runs on a buffer that `removeLine` has just closed with a NUL. */
  lemma {:induction false} ParseIsIdeal(c: Conn)
    requires Valid(c) && Room(c) && (Scanning(c.phase) ==> Fitting(c))
    ensures var (d, reason) := ParseRequest(c); IdealParse(ViewOf(c)) == (ViewOf(d), reason)
    decreases Rank(c.phase), c.len, if c.buf[0] == '\0' then 0 else 1
  {
    FittingIsFaithful(c);
    if Step(c).More? {
      StepIsClean(c);
      StepShrinks(c);
      var d := Step(c).next;
      hide Step, Ideal, Fitting;
      if Clean(d) { CleanFits(d); }
      ParseIsIdeal(d);
    }
  }

  lemma {:induction false} IdealNeverOverruns(v: View)
    ensures IdealParse(v).1 != Overrun
    decreases Rank(v.phase), |v.pending|
  {
    hide OnLine, LineEnd, ParseBody;
    if Ideal(v).More? {
      IdealNeverOverruns(Ideal(v).next);
    }
  }

  lemma {:induction false} ParseOnlyConsumes(c: Conn)
    requires Valid(c)
    ensures ParseRequest(c).0.len <= c.len
    decreases Rank(c.phase), c.len, if c.buf[0] == '\0' then 0 else 1
  {
    hide OnLine, ParseBody, FindLine;
    if Step(c).More? {
      StepShrinks(c);
      ParseOnlyConsumes(Step(c).next);
    }
  }

  /** The parse does what the received bytes call for. */
  ghost predicate ParsesIdeally(c: Conn)
    requires Valid(c)
  {
    var (d, reason) := ParseRequest(c); IdealParse(ViewOf(c)) == (ViewOf(d), reason)
  }

  /** A parse of a nonempty buffer whose scan does not fit shows: received bytes are lost, or
      the parser ends for a reason that they do not give. */
  lemma StaleParseShows(c: Conn)
    requires Valid(c) && Scanning(c.phase) && c.len > 0 && !Fitting(c)
    ensures !ParsesIdeally(c)
  {
    if FindLine(c.buf).RanOff? {
      assert ParseRequest(c).1 == Overrun;
      IdealNeverOverruns(ViewOf(c));
    } else {
      NothingCame(c);
      StaleLineEmpties(c);
    }
  }

  /** Then no line has come yet, and the reference waits. */
  lemma NothingCame(c: Conn)
    requires Valid(c) && Scanning(c.phase) && FindLine(c.buf).LineAt? && FindLine(c.buf).i + 2 > c.len
    ensures IdealParse(ViewOf(c)) == (ViewOf(c), NeedMore)
  {
    if LineEnd(c.buf[..c.len]).EndsAt? {
      LineWithinIsFound(c.buf, c.len);
    }
    hide FindLine, OnLine;
  }

  lemma StaleLineEmpties(c: Conn)
    requires Valid(c) && Scanning(c.phase) && c.len > 0
    requires FindLine(c.buf).LineAt? && FindLine(c.buf).i + 2 > c.len
    ensures var (d, reason) := ParseRequest(c); d.len == 0 || reason == BadLine
  {
    hide OnLine, FindLine;
    if Step(c).More? {
      StepShrinks(c);
      ParseOnlyConsumes(Step(c).next);
    }
  }

  /** So the whole parse of a nonempty buffer depends on the received bytes only exactly when
      its first scan fits. */
  lemma ParseIsIdealIff(c: Conn)
    requires Valid(c) && Scanning(c.phase) && c.len > 0
    ensures ParsesIdeally(c) <==> Fitting(c)
  {
    hide ParseRequest, IdealParse, Fitting;
    if Fitting(c) {
      ParseIsIdeal(c);
    } else {
      StaleParseShows(c);
    }
  }

  /** In the body the parse leaves the received bytes' meaning only on a full buffer with an
      empty body. */
  lemma BodyIsIdealIff(c: Conn)
    requires Valid(c) && c.phase == Body
    ensures ParsesIdeally(c) <==> Room(c)
  {
    if Room(c) {
      hide ParseRequest, IdealParse;
      ParseIsIdeal(c);
    } else {
      assert ParseRequest(c).1 == Overrun;
      IdealNeverOverruns(ViewOf(c));
    }
  }

  /** More bytes after a complete turn do not change it. */
  lemma TurnIsStable(v: View, more: string)
    requires Ideal(v).More?
    ensures Ideal(v.(pending := v.pending + more)) == More(Ideal(v).next.(pending := Ideal(v).next.pending + more))
  {
    hide OnLine, ParseBody, LineEnd;
    var p, q := v.pending, v.pending + more;
    if Scanning(v.phase) {
      LineEndWithin(p);
      LineEndStable(p, more);
      var i := LineEnd(p).i;
      assert q[..i] == p[..i] && q[i + 2..] == p[i + 2..] + more;
    } else if v.phase == Body && v.req.contentLength >= 0 {
      var n := v.req.contentLength;
      assert q[..n] == p[..n] && q[n..] == p[n..] + more;
    }
  }

  lemma {:induction false} LineEndStable(p: string, more: string)
    requires LineEnd(p).EndsAt?
    ensures LineEnd(p + more) == LineEnd(p)
  {
    assert (p + more)[1..] == p[1..] + more;
    if !(|p| >= 2 && p[0] == '\r' && p[1] == '\n') {
      LineEndStable(p[1..], more);
    }
  }

  /** Parsing what has come and then what comes later is parsing it all. */
  lemma {:induction false} IdealAppend(v: View, more: string)
    ensures var w := IdealParse(v).0;
      IdealParse(v.(pending := v.pending + more)) == IdealParse(w.(pending := w.pending + more))
    decreases Rank(v.phase), |v.pending|
  {
    if Ideal(v).More? {
      TurnIsStable(v, more);
      var u := Ideal(v).next;
      hide Ideal;
      IdealAppend(u, more);
    }
  }

  // ---- deliveries ----

  function Concat(pieces: seq<string>): string {
    if pieces == [] then "" else pieces[0] + Concat(pieces[1..])
  }

  /** Each delivery is appended to the buffer and parsed. */
  predicate Smooth(c: Conn, pieces: seq<string>)
    requires Valid(c)
    decreases |pieces|
  {
    pieces == [] ||
    (&& c.len + |pieces[0]| <= SIZE
     && Room(Deliver(c, pieces[0]))
     && (Scanning(c.phase) ==> Fitting(Deliver(c, pieces[0])))
     && Smooth(ParseRequest(Deliver(c, pieces[0])).0, pieces[1..]))
  }

  function RunAll(c: Conn, pieces: seq<string>): (d: Conn)
    requires Valid(c) && Smooth(c, pieces)
    ensures Valid(d)
    decreases |pieces|
  {
    if pieces == [] then c else RunAll(ParseRequest(Deliver(c, pieces[0])).0, pieces[1..])
  }

  /** However the input is cut into deliveries, if each scan fits, the request read and the
      bytes left depend only on the concatenated input. */
  lemma {:induction false} SplitDeliveries(c: Conn, v: View, pieces: seq<string>)
    requires Valid(c) && Smooth(c, pieces) && IdealParse(v).0 == ViewOf(c)
    ensures IdealParse(v.(pending := v.pending + Concat(pieces))).0 == ViewOf(RunAll(c, pieces))
    decreases |pieces|
  {
    hide ParseRequest, IdealParse, Fitting, Deliver;
    if pieces == [] {
      assert v.pending + "" == v.pending;
    } else {
      var d := Deliver(c, pieces[0]);
      var w := v.(pending := v.pending + pieces[0]);
      OneDelivery(c, v, pieces[0]);
      SplitDeliveries(ParseRequest(d).0, w, pieces[1..]);
      assert w.pending + Concat(pieces[1..]) == v.pending + Concat(pieces);
    }
  }

  lemma OneDelivery(c: Conn, v: View, piece: string)
    requires Valid(c) && c.len + |piece| <= SIZE
    requires Room(Deliver(c, piece)) && (Scanning(c.phase) ==> Fitting(Deliver(c, piece)))
    requires IdealParse(v).0 == ViewOf(c)
    ensures IdealParse(v.(pending := v.pending + piece)).0 == ViewOf(ParseRequest(Deliver(c, piece)).0)
  {
    hide ParseRequest, IdealParse, Fitting;
    DeliveryIsAppended(c, v, piece);
    ParseIsIdeal(Deliver(c, piece));
  }

  /** After each of the deliveries the parser is where the reference is on all bytes so far,
      and has stopped for the same reason. */
  ghost predicate Tracks(c: Conn, v: View, pieces: seq<string>)
    requires Valid(c)
    decreases |pieces|
  {
    pieces == [] ||
    (&& c.len + |pieces[0]| <= SIZE
     && (var (d, reason) := ParseRequest(Deliver(c, pieces[0]));
         var w := v.(pending := v.pending + pieces[0]);
         IdealParse(w) == (ViewOf(d), reason) && Tracks(d, w, pieces[1..])))
  }

  lemma DeliveryIsAppended(c: Conn, v: View, piece: string)
    requires Valid(c) && c.len + |piece| <= SIZE && IdealParse(v).0 == ViewOf(c)
    ensures IdealParse(v.(pending := v.pending + piece)) == IdealParse(ViewOf(Deliver(c, piece)))
  {
    hide IdealParse;
    IdealAppend(v, piece);
    assert ViewOf(Deliver(c, piece)) == ViewOf(c).(pending := ViewOf(c).pending + piece);
  }

  lemma OneDeliveryIff(c: Conn, v: View, piece: string)
    requires Valid(c) && c.len + |piece| <= SIZE && piece != "" && IdealParse(v).0 == ViewOf(c)
    ensures var (d, reason) := ParseRequest(Deliver(c, piece));
      IdealParse(v.(pending := v.pending + piece)) == (ViewOf(d), reason) <==>
      Room(Deliver(c, piece)) && (Scanning(c.phase) ==> Fitting(Deliver(c, piece)))
  {
    hide ParseRequest, IdealParse, Fitting;
    var d := Deliver(c, piece);
    DeliveryIsAppended(c, v, piece);
    if Scanning(c.phase) {
      ParseIsIdealIff(d);
    } else if c.phase == Body {
      BodyIsIdealIff(d);
    } else {
      ParseIsIdeal(d);
    }
  }

  /** A run of nonempty deliveries tracks the reference, delivery by delivery, exactly when
      each of its scans fits. */
  lemma {:induction false} TracksIff(c: Conn, v: View, pieces: seq<string>)
    requires Valid(c) && IdealParse(v).0 == ViewOf(c)
    requires forall i :: 0 <= i < |pieces| ==> pieces[i] != ""
    ensures Tracks(c, v, pieces) <==> Smooth(c, pieces)
    decreases |pieces|
  {
    hide ParseRequest, IdealParse, Fitting, Deliver;
    if pieces != [] && c.len + |pieces[0]| <= SIZE {
      OneDeliveryIff(c, v, pieces[0]);
      var (d, reason) := ParseRequest(Deliver(c, pieces[0]));
      var w := v.(pending := v.pending + pieces[0]);
      if IdealParse(w) == (ViewOf(d), reason) {
        TracksIff(d, w, pieces[1..]);
      }
    }
  }

  /** From `init`: cuts do not matter exactly when each scan fits. */
  lemma CutsMatterIff(pieces: seq<string>)
    requires forall i :: 0 <= i < |pieces| ==> pieces[i] != ""
    ensures Tracks(Fresh(), View(RequestLine, BLANK, ""), pieces) <==> Smooth(Fresh(), pieces)
  {
    hide Tracks, Smooth;
    var v := View(RequestLine, BLANK, "");
    assert ViewOf(Fresh()) == v;
    assert IdealParse(v).0 == v;
    TracksIff(Fresh(), v, pieces);
  }

  /** Everything after the received bytes is still the zeros of `init`. */
  ghost predicate ZeroTail(c: Conn)
    requires Valid(c)
  {
    forall i :: c.len <= i < SIZE ==> c.buf[i] == '\0'
  }

  /** Each delivery fits the buffer, and it starts outside the lines of the head, completes
      a line, or ends where the buffer has a NUL. */
  ghost predicate SafeCuts(c: Conn, pieces: seq<string>)
    requires Valid(c)
    decreases |pieces|
  {
    pieces == [] ||
    (&& c.len + |pieces[0]| <= SIZE
     && (Scanning(c.phase) ==> SafeCut(c, pieces[0]))
     && SafeCuts(ParseRequest(Deliver(c, pieces[0])).0, pieces[1..]))
  }

  /** As `m_read_buf` is zeroed by `init`, the last case holds throughout the request line
      unless the buffer is full. */
  ghost predicate SafeCut(c: Conn, piece: string)
    requires Valid(c) && c.len + |piece| <= SIZE
  {
    var total := c.len + |piece|;
    || LineEnd(c.buf[..c.len] + piece).EndsAt?
    || (total < SIZE && (c.phase == RequestLine || c.buf[total] == '\0'))
  }

  lemma SafeCutFits(c: Conn, piece: string)
    requires Valid(c) && c.len + |piece| <= SIZE && SafeCut(c, piece) && (c.phase == RequestLine ==> ZeroTail(c))
    ensures Fitting(Deliver(c, piece))
  {
    hide FindLine, LineEnd;
    var d := Deliver(c, piece);
    if LineEnd(d.buf[..d.len]).EndsAt? {
      LineWithinIsFound(d.buf, d.len);
      LineEndWithin(d.buf[..d.len]);
    } else {
      CleanScan(d.buf, d.len);
    }
  }

  lemma LineEndWithin(s: string)
    ensures LineEnd(s).EndsAt? ==> LineEnd(s).i + 2 <= |s|
  {
  }

  /** A connection that waits in the body waits for a byte of it. */
  predicate Waits(c: Conn) { c.phase == Body ==> c.req.contentLength > 0 }

  lemma {:induction false} ParseWaits(c: Conn)
    requires Valid(c) && Room(c)
    ensures Waits(ParseRequest(c).0)
    decreases Rank(c.phase), c.len, if c.buf[0] == '\0' then 0 else 1
  {
    hide OnLine, RemoveLine, ParseBody, FindLine;
    if Step(c).More? {
      StepIsClean(c);
      StepShrinks(c);
      var d := Step(c).next;
      hide Step;
      ParseWaits(d);
    }
  }

  lemma {:induction false} StillZero(c: Conn)
    requires Valid(c) && (c.phase == RequestLine ==> ZeroTail(c))
    ensures var d := ParseRequest(c).0; d.phase == RequestLine ==> d == c
    decreases Rank(c.phase), c.len, if c.buf[0] == '\0' then 0 else 1
  {
    hide OnLine, RemoveLine, ParseBody, FindLine;
    if Step(c).More? {
      StepShrinks(c);
      StillZero(Step(c).next);
    }
  }

  lemma {:induction false} SafeCutsAreSmooth(c: Conn, pieces: seq<string>)
    requires Valid(c) && SafeCuts(c, pieces) && Waits(c) && (c.phase == RequestLine ==> ZeroTail(c))
    ensures Smooth(c, pieces)
    decreases |pieces|
  {
    hide ParseRequest, Fitting, SafeCut;
    if pieces != [] {
      var d := Deliver(c, pieces[0]);
      if Scanning(c.phase) {
        SafeCutFits(c, pieces[0]);
      }
      StillZero(d);
      ParseWaits(d);
      SafeCutsAreSmooth(ParseRequest(d).0, pieces[1..]);
    }
  }

  /** From `init`, deliveries that start in the request line or in the body, and in the
      headers those that complete a line or end before a NUL, give the request and the
      leftover bytes of the whole input. */
  lemma DeliveriesDoNotMatter(pieces: seq<string>)
    requires SafeCuts(Fresh(), pieces)
    ensures Smooth(Fresh(), pieces)
    ensures ViewOf(RunAll(Fresh(), pieces)) == IdealParse(View(RequestLine, BLANK, Concat(pieces))).0
  {
    SafeCutsAreSmooth(Fresh(), pieces);
    var v := View(RequestLine, BLANK, "");
    assert ViewOf(Fresh()) == v;
    assert IdealParse(v).0 == v;
    hide Smooth, RunAll, IdealParse;
    SplitDeliveries(Fresh(), v, pieces);
    assert "" + Concat(pieces) == Concat(pieces);
  }

  /** In particular many deliveries read what one delivery of the same bytes reads. */
  lemma ManyAreOne(pieces: seq<string>)
    requires SafeCuts(Fresh(), pieces)
    requires |Concat(pieces)| < SIZE || (|Concat(pieces)| == SIZE && LineEnd(Concat(pieces)).EndsAt?)
    ensures Smooth(Fresh(), pieces) && Smooth(Fresh(), [Concat(pieces)])
    ensures ViewOf(RunAll(Fresh(), pieces)) == ViewOf(RunAll(Fresh(), [Concat(pieces)]))
  {
    hide Smooth, RunAll, IdealParse;
    DeliveriesDoNotMatter(pieces);
    OneIsSafe(Concat(pieces));
    DeliveriesDoNotMatter([Concat(pieces)]);
  }

  lemma OneIsSafe(data: string)
    requires |data| < SIZE || (|data| == SIZE && LineEnd(data).EndsAt?)
    ensures SafeCuts(Fresh(), [data]) && Concat([data]) == data
  {
    hide SafeCuts, SafeCut, LineEnd;
    SafeFirst(Fresh(), data);
    SafeOnce(Fresh(), data);
    assert [data][1..] == [];
    assert data + "" == data;
  }

  lemma SafeFirst(c: Conn, data: string)
    requires Valid(c) && c.len == 0 && c.phase == RequestLine
    requires |data| < SIZE || (|data| == SIZE && LineEnd(data).EndsAt?)
    ensures SafeCut(c, data)
  {
    hide LineEnd;
    assert c.buf[..0] + data == data;
  }

  lemma SafeOnce(c: Conn, data: string)
    requires Valid(c) && c.len + |data| <= SIZE && SafeCut(c, data)
    ensures SafeCuts(c, [data])
  {
    hide ParseRequest, SafeCut, Deliver;
    assert [data][1..] == [];
    assert SafeCuts(ParseRequest(Deliver(c, data)).0, []);
  }

  // ---- a cut inside the headers ----

  ghost predicate NoBreak(s: string) { forall i :: 0 <= i < |s| ==> s[i] != '\r' && s[i] != '\0' }

  lemma {:induction false} LineAfter(a: string, rest: string)
    requires NoBreak(a)
    ensures FindLine(a + "\r\n" + rest) == LineAt(|a|) && LineEnd(a + "\r\n" + rest) == EndsAt(|a|)
  {
    var s := a + "\r\n" + rest;
    if a != [] {
      assert s[0] == a[0] && s[1..] == a[1..] + "\r\n" + rest;
      LineAfter(a[1..], rest);
    }
  }

  /** A turn on a buffer that starts with a line. */
  lemma StepOnLine(c: Conn, line: string, rest: string, phase: Phase, req: Request)
    requires Valid(c) && Scanning(c.phase) && NoBreak(line) && c.buf == line + "\r\n" + rest
    requires OnLine(c.phase, c.req, line) == Go(phase, req)
    ensures Step(c) == More(RemoveLine(c, |line| + 2).(phase := phase, req := req))
  {
    LineAfter(line, rest);
    assert c.buf[..|line|] == line;
    hide OnLine, FindLine, RemoveLine;
  }

  lemma NulStopsScan(c: Conn, k: nat)
    requires Valid(c) && Scanning(c.phase) && k <= 1 < SIZE && c.buf[k] == '\0' && (k == 1 ==> c.buf[0] != '\r')
    ensures FindLine(c.buf) == NoLine && ParseRequest(c) == (c, NeedMore)
  {
    if k == 1 && c.buf[0] != '\0' {
      assert c.buf[1..][0] == '\0';
      assert FindLine(c.buf[1..]) == NoLine;
    }
  }

  lemma FirstLine(req: Request)
    ensures OnLine(RequestLine, req, "G / V") == Go(Headers, req.(verb := "G", url := "/", version := "V"))
    ensures NoBreak("G / V")
  {
    hide ParseRequestLine;
    assert "G / V" == "G" + " " + "/" + " " + "V";
    assert Word("G") && Word("/") && Word("V");
    RequestLineIs(req, "G", "/", "V");
  }

  /** The state after the request line `G / V` and the first byte of a header have come. */
  lemma AfterFirstDelivery(c: Conn)
    requires c == ParseRequest(Deliver(Fresh(), "G / V\r\nC")).0
    ensures c.phase == Headers && c.len == 1 && c.buf[0] == 'C' && c.buf[2..7] == "/ V\r\n"
  {
    hide FindLine, OnLine, ParseRequest, Step;
    var c1 := Deliver(Fresh(), "G / V\r\nC");
    assert c1.buf[..8] == "" + "G / V\r\nC";
    FirstTurn(c1);
    NulStopsScan(Step(c1).next, 1);
    ParseUnfolds(c1);
  }

  lemma ParseUnfolds(c: Conn)
    requires Valid(c) && Step(c).More?
    ensures ParseRequest(c) == ParseRequest(Step(c).next)
  {
    hide Step;
    StepShrinks(c);
  }

  lemma FirstTurn(c: Conn)
    requires Valid(c) && c.phase == RequestLine && c.len == 8 && c.buf[..8] == "G / V\r\nC"
    ensures Step(c).More?
    ensures var d := Step(c).next;
      d.phase == Headers && d.len == 1 && d.buf[0] == 'C' && d.buf[1] == '\0' && d.buf[2..7] == "/ V\r\n"
  {
    hide FindLine, OnLine, Step;
    assert c.buf == c.buf[..8] + c.buf[8..];
    assert c.buf == "G / V" + "\r\n" + c.buf[7..];
    FirstLine(c.req);
    StepOnLine(c, "G / V", c.buf[7..], Headers, c.req.(verb := "G", url := "/", version := "V"));
    RemoveSeven(c);
  }

  lemma RemoveSeven(c: Conn)
    requires Valid(c) && c.len == 8 && c.buf[..8] == "G / V\r\nC"
    ensures var d := RemoveLine(c, 7); d.len == 1 && d.buf[0] == 'C' && d.buf[1] == '\0' && d.buf[2..7] == "/ V\r\n"
  {
    var d := RemoveLine(c, 7);
    assert c.buf[2..7] == c.buf[..8][2..7] == "/ V\r\n";
    assert d.buf[0] == c.buf[7] == c.buf[..8][7];
    assert d.buf[2..7] == c.buf[2..7];
  }

  /** Cutting a request inside its headers can lose bytes: after `G / V`, a header that
      starts with `C` and goes on with `D` in the next delivery is swallowed together with
      stale bytes of the request line. In one delivery both bytes are kept. */
  lemma HeaderCutLosesInput()
    ensures var c := ParseRequest(Deliver(Fresh(), "G / V\r\nC")).0;
      && c.len == 1 && !Fitting(Deliver(c, "D"))
      && Step(Deliver(c, "D")).More? && ViewOf(Step(Deliver(c, "D")).next).pending == ""
      && Ideal(ViewOf(Deliver(c, "D"))) == Halt(NeedMore) && ViewOf(Deliver(c, "D")).pending == "CD"
  {
    hide ParseRequest, FindLine, Step, Ideal, Fitting, Deliver;
    var c := ParseRequest(Deliver(Fresh(), "G / V\r\nC")).0;
    AfterFirstDelivery(c);
    StaleDelivery(c);
  }

  lemma StaleDelivery(c: Conn)
    requires Valid(c) && c.phase == Headers && c.len == 1 && c.buf[0] == 'C' && c.buf[2..7] == "/ V\r\n"
    ensures var d := Deliver(c, "D");
      && !Fitting(d) && Step(d).More? && ViewOf(Step(d).next).pending == ""
      && Ideal(ViewOf(d)) == Halt(NeedMore) && ViewOf(d).pending == "CD"
  {
    hide FindLine, Step, Ideal;
    var d := Deliver(c, "D");
    assert d.buf == "C" + "D" + c.buf[2..];
    assert c.buf[2..] == c.buf[2..7] + c.buf[7..];
    assert d.buf == "CD/ V" + "\r\n" + c.buf[7..];
    LineAfter("CD/ V", c.buf[7..]);
    StaleLineDropsInput(d);
  }

  // ---- parsing inverts printing ----

  /** A request as a client writes it. */
  datatype Printed = Printed(verb: string, url: string, version: string, fields: seq<(string, string)>, body: string)

  function PrintFields(fields: seq<(string, string)>): string {
    if fields == [] then "" else fields[0].0 + ": " + fields[0].1 + "\r\n" + PrintFields(fields[1..])
  }

  /** The request line and the fields. */
  function Head(p: Printed): string { p.verb + " " + p.url + " " + p.version + "\r\n" + PrintFields(p.fields) }

  function Print(p: Printed): string { Head(p) + "\r\n" + p.body }

  /** The last value of a field, or the default. */
  function LastOf(fields: seq<(string, string)>, key: string, default: string): string {
    if fields == [] then default
    else LastOf(fields[1..], key, if fields[0].0 == key then fields[0].1 else default)
  }

  /** Well-formed fields: no line breaks, readable lengths. */
  ghost predicate GoodFields(fields: seq<(string, string)>) {
    forall i :: 0 <= i < |fields| ==>
      && FieldName(fields[i].0) && FieldValue(fields[i].1)
      && (fields[i].0 == "Content-Length" ==> Stoi(fields[i].1).AnInt?)
  }

  /** The body length that the fields announce; none means zero. */
  function Announced(fields: seq<(string, string)>): Int { Stoi(LastOf(fields, "Content-Length", "0")) }

  ghost predicate GoodHead(p: Printed) { Word(p.verb) && Word(p.url) && Word(p.version) && GoodFields(p.fields) }

  ghost predicate WellFormed(p: Printed) { GoodHead(p) && Announced(p.fields) == AnInt(|p.body|) }

  /** The request that was printed, as the parser should store it: the body as it is, cut
      into `pieces` at its ampersands, whose fields it holds if the last Content-Type is that
      of a form. */
  ghost function Meant(p: Printed, pieces: seq<Piece>): Request {
    var connection := LastOf(p.fields, "connection", "");
    Request(p.verb, p.url, p.version, LastWins(p.fields, map[]), |p.body|,
            connection, connection == "keep-alive", p.body,
            if IsForm(LastOf(p.fields, "Content-Type", "")) then LastWins(FieldsOf(pieces), map[]) else map[])
  }

  lemma {:induction false} LastOfIs(fields: seq<(string, string)>, m: map<string, string>, key: string)
    ensures var r := LastWins(fields, m);
      LastOf(fields, key, if key in m then m[key] else "") == if key in r then r[key] else ""
  {
    if fields != [] {
      LastOfIs(fields[1..], m[fields[0].0 := fields[0].1], key);
    }
  }

  /** Storing the fields one by one. */
  function Stored(req: Request, fields: seq<(string, string)>): Request
    decreases |fields|
  {
    if fields == [] then req
    else match SetHeader(req, fields[0].0, fields[0].1)
      case Next(r) => Stored(r, fields[1..])
      case _ => req
  }

  lemma {:induction false} FieldsAreRead(req: Request, fields: seq<(string, string)>, tail: string)
    requires GoodFields(fields)
    decreases |fields|
    ensures IdealParse(View(Headers, req, PrintFields(fields) + tail)) ==
      IdealParse(View(Headers, Stored(req, fields), tail))
  {
    hide LineEnd, ParseHeader, Ideal, SetHeader;
    var v := View(Headers, req, PrintFields(fields) + tail);
    if fields == [] {
      assert v.pending == tail;
    } else {
      var (k, x) := fields[0];
      var line, rest := k + ": " + x, PrintFields(fields[1..]) + tail;
      assert v.pending == line + "\r\n" + rest;
      assert NoBreak(line);
      LineTurn(Headers, req, line, rest);
      HeaderLineIs(req, k, x);
      assert GoodFields(fields[1..]);
      FieldIsNext(req, k, x);
      FieldsAreRead(SetHeader(req, k, x).req, fields[1..], tail);
    }
  }

  lemma HeadersEnd(req: Request, rest: string)
    ensures IdealParse(View(Headers, req, "\r\n" + rest)) == IdealParse(View(Body, req, rest))
  {
    hide LineEnd, Ideal;
    assert "\r\n" + rest == "" + "\r\n" + rest;
    LineTurn(Headers, req, "", rest);
    BlankLine(req);
  }

  lemma BlankLine(req: Request)
    ensures OnLine(Headers, req, "") == Go(Body, req)
  {
  }

  lemma FieldIsNext(req: Request, k: string, x: string)
    requires k == "Content-Length" ==> Stoi(x).AnInt?
    ensures SetHeader(req, k, x).Next?
  {
  }

  /** A reference turn on received bytes that start with a line. */
  lemma LineTurn(phase: Phase, req: Request, line: string, tail: string)
    requires Scanning(phase) && NoBreak(line)
    ensures Ideal(View(phase, req, line + "\r\n" + tail)) ==
      match OnLine(phase, req, line)
      case Refuse => Halt(BadLine)
      case Go(p, r) => More(View(p, r, tail))
  {
    LineAfter(line, tail);
    var s := line + "\r\n" + tail;
    assert s[..|line|] == line && s[|line| + 2..] == tail;
    hide OnLine, LineEnd;
  }

  /** What storing the fields amounts to. */
  lemma {:induction false} StoredIs(req: Request, fields: seq<(string, string)>, length: string)
    requires GoodFields(fields) && Stoi(length) == AnInt(req.contentLength)
    requires req.keepAlive == (req.connection == "keep-alive")
    ensures Stored(req, fields).headers == LastWins(fields, req.headers)
    ensures Stoi(LastOf(fields, "Content-Length", length)) == AnInt(Stored(req, fields).contentLength)
    ensures Stored(req, fields).connection == LastOf(fields, "connection", req.connection)
    ensures Stored(req, fields) == req.(headers := Stored(req, fields).headers,
      contentLength := Stored(req, fields).contentLength, connection := Stored(req, fields).connection,
      keepAlive := Stored(req, fields).connection == "keep-alive")
    decreases |fields|
  {
    hide Stoi;
    if fields != [] {
      var (k, x) := fields[0];
      assert GoodFields(fields[1..]);
      StoredIs(SetHeader(req, k, x).req, fields[1..], if k == "Content-Length" then x else length);
    }
  }

  lemma ZeroIsZero()
    ensures Stoi("0") == AnInt(0)
  {
    var z := "0";
    assert SkipSpace(z) == z && z[1..] == [] && DigitRun(z) == 1 && z[..1] == z && z[..0] == [];
    assert Decimal.Value(z) == 10 * Decimal.Value(z[..0]) + 0;
  }

  /** One delivery of a well-formed printed request, followed by any bytes, is read back:
      same method, url, version, last-wins headers, body and form, and exactly the extra
      bytes stay in the buffer. Every body has pieces (`HttpText.EveryBodyIsAForm`). */
  lemma ParseInvertsPrint(p: Printed, pieces: seq<Piece>, extra: string)
    requires WellFormed(p) && |Print(p)| + |extra| <= SIZE && GoodPieces(pieces) && PrintForm(pieces) == p.body
    ensures var (c, reason) := ParseRequest(Deliver(Fresh(), Print(p) + extra));
      reason == Complete && c.phase == Done && c.req == Meant(p, pieces) && c.buf[..c.len] == extra
  {
    hide ParseRequest, IdealParse, Meant, Head, LineEnd;
    IdealInvertsPrint(p, pieces, extra);
    HeadStarts(p, "\r\n" + p.body + extra);
    assert Print(p) + extra == Head(p) + ("\r\n" + p.body + extra);
    FirstIsIdeal(Print(p) + extra);
  }

  lemma HeadStarts(p: Printed, rest: string)
    requires GoodHead(p)
    ensures LineEnd(Head(p) + rest).EndsAt?
  {
    hide LineEnd, PrintFields;
    var line := p.verb + " " + p.url + " " + p.version;
    WordsDoNotBreak(p.verb, p.url, p.version);
    LineAfter(line, PrintFields(p.fields) + rest);
    assert Head(p) + rest == line + "\r\n" + (PrintFields(p.fields) + rest);
  }

  /** The head of a printed request leads to the body with its fields stored. */
  lemma HeadIsRead(p: Printed, tail: string)
    requires GoodHead(p)
    ensures IdealParse(View(RequestLine, BLANK, Head(p) + tail)) ==
      IdealParse(View(Headers, Stored(Named(p), p.fields), tail))
  {
    hide LineEnd, ParseRequestLine, PrintFields, Stored, Ideal;
    var line, rest := p.verb + " " + p.url + " " + p.version, PrintFields(p.fields) + tail;
    var v := View(RequestLine, BLANK, Head(p) + tail);
    assert v.pending == line + "\r\n" + rest;
    WordsDoNotBreak(p.verb, p.url, p.version);
    LineTurn(RequestLine, BLANK, line, rest);
    RequestLineIs(BLANK, p.verb, p.url, p.version);
    assert Ideal(v) == More(View(Headers, Named(p), rest));
    FieldsAreRead(Named(p), p.fields, tail);
  }

  function Named(p: Printed): Request { BLANK.(verb := p.verb, url := p.url, version := p.version) }

  lemma IdealInvertsPrint(p: Printed, pieces: seq<Piece>, extra: string)
    requires WellFormed(p) && GoodPieces(pieces) && PrintForm(pieces) == p.body
    ensures IdealParse(View(RequestLine, BLANK, Print(p) + extra)) == (View(Done, Meant(p, pieces), extra), Complete)
  {
    hide Head, Stored, Stoi, ParseBody, IdealParse, Meant;
    var rest := p.body + extra;
    assert Print(p) + extra == Head(p) + ("\r\n" + rest);
    HeadIsRead(p, "\r\n" + rest);
    HeadersEnd(Stored(Named(p), p.fields), rest);
    ZeroIsZero();
    StoredIs(Named(p), p.fields, "0");
    BodyTurn(Stored(Named(p), p.fields), p.body, extra);
    StoredIsMeant(p, pieces);
  }

  lemma StoredIsMeant(p: Printed, pieces: seq<Piece>)
    requires WellFormed(p) && GoodPieces(pieces) && PrintForm(pieces) == p.body
    ensures ParseBody(Stored(Named(p), p.fields), p.body) == Meant(p, pieces)
  {
    var r := Named(p);
    hide Stored, Stoi, ParseBody, LastWins, LastOf, IsForm, FieldsOf;
    ZeroIsZero();
    StoredIs(r, p.fields, "0");
    ParseBodyIs(Stored(r, p.fields), pieces);
    LastOfIs(p.fields, map[], "Content-Type");
  }

  lemma WordsDoNotBreak(a: string, b: string, c: string)
    requires Word(a) && Word(b) && Word(c)
    ensures NoBreak(a + " " + b + " " + c)
  {
    assert IsSpace('\r');
  }

  lemma BodyTurn(q: Request, body: string, extra: string)
    requires q.contentLength == |body|
    ensures IdealParse(View(Body, q, body + extra)) == (View(Done, ParseBody(q, body), extra), Complete)
  {
    var s := body + extra;
    assert s[..|body|] == body && s[|body|..] == extra;
    hide ParseBody;
    assert Ideal(View(Body, q, s)) == More(View(Done, ParseBody(q, body), extra));
  }

  // ---- incomplete and unreadable requests ----

  lemma {:induction false} HaltIs(v: View)
    ensures var (w, reason) := IdealParse(v); Ideal(w) == Halt(reason)
    decreases Rank(v.phase), |v.pending|
  {
    if Ideal(v).More? {
      var u := Ideal(v).next;
      hide Ideal;
      HaltIs(u);
    }
  }

  /** More bytes change nothing for a parser that has stopped for another reason than the
      lack of them. */
  lemma HaltStays(v: View, more: string)
    requires Ideal(v).Halt? && Ideal(v).reason != NeedMore
    ensures Ideal(v.(pending := v.pending + more)) == Ideal(v)
  {
    hide OnLine, ParseBody, LineEnd;
    if Scanning(v.phase) {
      LineEndWithin(v.pending);
      LineEndStable(v.pending, more);
      var i := LineEnd(v.pending).i;
      assert (v.pending + more)[..i] == v.pending[..i];
    }
  }

  lemma IdealPrefixNeedsMore(p: Printed, k: nat)
    requires WellFormed(p) && k < |Print(p)|
    ensures IdealParse(View(RequestLine, BLANK, Print(p)[..k])).1 == NeedMore
  {
    hide IdealParse, Ideal, Print, WellFormed, Meant;
    var pieces := EveryBodyIsAForm(p.body);
    var v, more := View(RequestLine, BLANK, Print(p)[..k]), Print(p)[k..];
    assert v.pending + more == Print(p) + "";
    IdealInvertsPrint(p, pieces, "");
    IdealAppend(v, more);
    var (w, reason) := IdealParse(v);
    HaltIs(v);
    if reason != NeedMore {
      HaltStays(w, more);
      StopsAt(w.(pending := w.pending + more), reason);
    }
  }

  lemma StopsAt(v: View, reason: Reason)
    requires Ideal(v) == Halt(reason)
    ensures IdealParse(v) == (v, reason)
  {
  }

  /** Whatever arrives first of a well-formed request short of all of it, the parser asks for
      more. */
  lemma PrefixNeedsMore(p: Printed, k: nat)
    requires WellFormed(p) && k < |Print(p)| && k < SIZE
    ensures ParseRequest(Deliver(Fresh(), Print(p)[..k])).1 == NeedMore
  {
    hide ParseRequest, IdealParse, Fitting, Print, WellFormed, LineEnd;
    IdealPrefixNeedsMore(p, k);
    FirstIsIdeal(Print(p)[..k]);
  }

  /** A first delivery is parsed as its bytes call for. */
  lemma FirstIsIdeal(data: string)
    requires |data| < SIZE || (|data| == SIZE && LineEnd(data).EndsAt?)
    ensures var (c, reason) := ParseRequest(Deliver(Fresh(), data));
      IdealParse(View(RequestLine, BLANK, data)) == (ViewOf(c), reason)
  {
    hide ParseRequest, IdealParse, Fitting, LineEnd, SafeCut;
    SafeFirst(Fresh(), data);
    SafeCutFits(Fresh(), data);
    ParseIsIdeal(Deliver(Fresh(), data));
    assert "" + data == data;
    assert ViewOf(Deliver(Fresh(), data)) == View(RequestLine, BLANK, data);
  }

  lemma {:induction false} HeadersAreNeverBad(v: View)
    requires v.phase != RequestLine
    ensures IdealParse(v).1 != BadLine
    decreases Rank(v.phase), |v.pending|
  {
    hide LineEnd, ParseBody, ParseHeader;
    if Ideal(v).More? {
      HeadersAreNeverBad(Ideal(v).next);
    }
  }

  /** A request is refused exactly if its first line has fewer than three words, whatever
      follows it. */
  lemma RefusedIff(line: string, rest: string)
    requires NoBreak(line) && |line| + 2 + |rest| <= SIZE
    ensures ParseRequest(Deliver(Fresh(), line + "\r\n" + rest)).1 == BadLine <==>
      forall a, b, c :: !ThreeWords(line, a, b, c)
  {
    hide ParseRequest, IdealParse, LineEnd, ThreeWords, ParseRequestLine, Ideal;
    var data := line + "\r\n" + rest;
    LineAfter(line, rest);
    FirstIsIdeal(data);
    LineTurn(RequestLine, BLANK, line, rest);
    RequestLineIff(BLANK, line);
    var v := View(RequestLine, BLANK, data);
    if ParseRequestLine(BLANK, line).Rejected? {
      StopsAt(v, BadLine);
    } else {
      IdealUnfolds(v);
      HeadersAreNeverBad(Ideal(v).next);
    }
  }

  lemma IdealUnfolds(v: View)
    requires Ideal(v).More?
    ensures IdealParse(v) == IdealParse(Ideal(v).next)
  {
  }

  /** A field that announces no number ends the parse with an exception, whatever stands
      before and after it. */
  lemma UnreadableLengthCrashes(p: Printed, value: string, rest: string)
    requires GoodHead(p) && FieldValue(value) && Stoi(value).NoInt?
    requires |Head(p)| + |"Content-Length: " + value + "\r\n" + rest| <= SIZE
    ensures ParseRequest(Deliver(Fresh(), Head(p) + ("Content-Length: " + value + "\r\n" + rest))).1 == Crash
  {
    hide ParseRequest, IdealParse, Head, Stored, Stoi, LineEnd, Ideal, ParseHeader;
    var line := "Content-Length" + ": " + value;
    assert line == "Content-Length: " + value;
    var r, tail := Stored(Named(p), p.fields), line + "\r\n" + rest;
    HeadIsRead(p, tail);
    assert NoBreak(line) && FieldName("Content-Length");
    LineTurn(Headers, r, line, rest);
    HeaderLineIs(r, "Content-Length", value);
    IdealUnfolds(View(Headers, r, tail));
    CrashedStops(Ideal(View(Headers, r, tail)).next);
    HeadStarts(p, tail);
    FirstIsIdeal(Head(p) + tail);
  }

  lemma CrashedStops(v: View)
    requires v.phase == Crashed
    ensures IdealParse(v).1 == Crash
  {
  }

  /** And so does an announced length below zero. */
  lemma NegativeLengthCrashes(p: Printed)
    requires GoodHead(p) && Announced(p.fields).AnInt? && Announced(p.fields).n < 0 && |Print(p)| <= SIZE
    ensures ParseRequest(Deliver(Fresh(), Print(p))).1 == Crash
  {
    hide ParseRequest, IdealParse, Head, Stored, Stoi, ParseBody, LineEnd;
    assert Print(p) == Head(p) + ("\r\n" + p.body);
    HeadIsRead(p, "\r\n" + p.body);
    var v := View(Body, Stored(Named(p), p.fields), p.body);
    HeadersEnd(v.req, p.body);
    ZeroIsZero();
    StoredIs(Named(p), p.fields, "0");
    IdealUnfolds(v);
    CrashedStops(Ideal(v).next);
    HeadStarts(p, "\r\n" + p.body);
    FirstIsIdeal(Print(p));
  }
}
