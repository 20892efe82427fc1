/** The reassembly of packets in ntyco.c, with the header parser of kvstore.c and the byte that
    its packet handler writes. */
module Framing {

  type Byte = b: int | 0 <= b < 256

  const TCP_HEADER_SIZE := 24
  const TCP_MAGIC := 0x5453564B
  const TCP_VERSION := 1
  const MAX_DATA := 1024
  const BUFFER_SIZE := 4096

  datatype Header = Header(magic: nat, version: nat, cmdType: nat, dataLen: nat, seqId: nat, flags: nat)

  datatype Parsed = Good(header: Header) | BadMagic | BadVersion | TooLong

  /** ntohl of the four bytes at i. */
  function U32(s: seq<Byte>, i: nat): nat
    requires i + 4 <= |s|
  {
    var a: nat, b: nat, c: nat, d: nat := s[i], s[i + 1], s[i + 2], s[i + 3];
    a * 0x1000000 + b * 0x10000 + c * 0x100 + d
  }

  function ParseHeader(s: seq<Byte>): Parsed
    requires |s| >= TCP_HEADER_SIZE
  {
    var h := Header(U32(s, 0), U32(s, 4), U32(s, 8), U32(s, 12), U32(s, 16), U32(s, 20));
    if h.magic != TCP_MAGIC then BadMagic
    else if h.version != TCP_VERSION then BadVersion
    else if h.dataLen > MAX_DATA then TooLong
    else Good(h)
  }

  /** Nothing but the first 24 bytes matters to the header. */
  lemma HeaderPrefix(s: seq<Byte>, t: seq<Byte>)
    requires |s| >= TCP_HEADER_SIZE && |t| >= TCP_HEADER_SIZE && s[..TCP_HEADER_SIZE] == t[..TCP_HEADER_SIZE]
    ensures ParseHeader(s) == ParseHeader(t)
  {
    assert forall i :: 0 <= i < TCP_HEADER_SIZE ==> s[i] == s[..TCP_HEADER_SIZE][i] == t[i];
  }

  /** A header whose first byte is NUL is never accepted. */
  lemma NulHeader(s: seq<Byte>)
    requires |s| >= TCP_HEADER_SIZE && s[0] == 0
    ensures ParseHeader(s) == BadMagic
  {
  }

  // ----- what the stream says

  /** What a connection comes to: the packets handed on, and whether a header was refused. */
  datatype Outcome = Outcome(packets: seq<seq<Byte>>, rejected: bool)
  {
    function After(before: seq<seq<Byte>>): Outcome { Outcome(before + packets, rejected) }
  }

  lemma AfterNone(o: Outcome)
    ensures o.After([]) == o
  {
    assert [] + o.packets == o.packets;
  }

  lemma AfterTwice(o: Outcome, a: seq<seq<Byte>>, b: seq<seq<Byte>>)
    ensures o.After(a).After(b) == o.After(b + a)
  {
    assert b + (a + o.packets) == b + a + o.packets;
  }

  datatype Step = Wait | Reject | Packet(len: nat, hasData: bool)

  /** The head of a buffer: a header or packet still incomplete, a bad header, or a packet. */
  function Head(s: seq<Byte>): (r: Step)
    ensures r.Packet? ==> TCP_HEADER_SIZE <= r.len <= |s| && r.len <= TCP_HEADER_SIZE + MAX_DATA
    ensures r.Packet? ==> (r.hasData <==> r.len > TCP_HEADER_SIZE)
    ensures r.Wait? ==> |s| < TCP_HEADER_SIZE + MAX_DATA
  {
    if |s| < TCP_HEADER_SIZE then Wait
    else match ParseHeader(s)
      case Good(h) =>
        var total := TCP_HEADER_SIZE + h.dataLen;
        if |s| < total then Wait else Packet(total, h.dataLen > 0)
      case _ => Reject
  }

  /** The numbers in a header lie in its bytes one behind the other, each with its high byte first, and it
      is refused for the first of them that is wrong. */
  lemma HeaderBytes(s: seq<Byte>)
    requires |s| >= 24
    ensures ParseHeader(s) == BadMagic <==> s[..4] != [0x54, 0x53, 0x56, 0x4B]
    ensures ParseHeader(s) == BadVersion <==> s[..4] == [0x54, 0x53, 0x56, 0x4B] && s[4..8] != [0, 0, 0, 1]
    ensures ParseHeader(s) == TooLong
            <==> s[..8] == [0x54, 0x53, 0x56, 0x4B, 0, 0, 0, 1] && (s[12] > 0 || s[13] > 0 || s[14] as int * 0x100 + s[15] > 1024)
    ensures ParseHeader(s).Good? ==>
              var h := ParseHeader(s).header;
              && h.magic == 0x5453564B && h.version == 1
              && h.cmdType == s[8] as int * 0x1000000 + s[9] as int * 0x10000 + s[10] as int * 0x100 + s[11]
              && h.dataLen == s[14] as int * 0x100 + s[15]
              && h.seqId == s[16] as int * 0x1000000 + s[17] as int * 0x10000 + s[18] as int * 0x100 + s[19]
              && h.flags == s[20] as int * 0x1000000 + s[21] as int * 0x10000 + s[22] as int * 0x100 + s[23]
  {
    assert s[..4] == [s[0], s[1], s[2], s[3]] && s[4..8] == [s[4], s[5], s[6], s[7]];
    assert s[..8] == s[..4] + s[4..8];
  }

  /** What the head of a buffer is, byte by byte. */
  lemma HeadBytes(s: seq<Byte>)
    ensures |s| < 24 ==> Head(s) == Wait
    ensures |s| >= 24 ==>
              var d := s[12] as int * 0x1000000 + s[13] as int * 0x10000 + s[14] as int * 0x100 + s[15];
              && (Head(s) == Packet(24 + d, d > 0)
                  <==> s[..8] == [0x54, 0x53, 0x56, 0x4B, 0, 0, 0, 1] && d <= 1024 && |s| >= 24 + d)
              && (Head(s) == Reject <==> s[..8] != [0x54, 0x53, 0x56, 0x4B, 0, 0, 0, 1] || d > 1024)
              && (Head(s) == Wait
                  <==> s[..8] == [0x54, 0x53, 0x56, 0x4B, 0, 0, 0, 1] && d <= 1024 && |s| < 24 + d)
  {
    if |s| >= 24 {
      HeaderBytes(s);
      assert s[..8] == s[..4] + s[4..8];
    }
  }

  /** The whole stream parsed at once. */
  function Whole(s: seq<Byte>): Outcome
    decreases |s|
  {
    match Head(s)
    case Wait => Outcome([], false)
    case Reject => Outcome([], true)
    case Packet(n, _) => Whole(s[n..]).After([s[..n]])
  }

  /** A packet on its own: magic number, version 1, a length of at most 1024, and as much data. */
  predicate WellFormed(p: seq<Byte>)
  {
    && |p| >= 24 && p[..8] == [0x54, 0x53, 0x56, 0x4B, 0, 0, 0, 1] && p[12] == p[13] == 0
    && p[14] as int * 0x100 + p[15] == |p| - 24 <= 1024
  }

  /** A header that no packet starts with. */
  predicate Malformed(s: seq<Byte>)
  {
    |s| >= 24 && (s[..8] != [0x54, 0x53, 0x56, 0x4B, 0, 0, 0, 1] || s[12] > 0 || s[13] > 0 || s[14] as int * 0x100 + s[15] > 1024)
  }

  /** A head is a packet exactly when the buffer begins with a well-formed one. */
  lemma HeadWellFormed(s: seq<Byte>)
    ensures Head(s).Packet? ==> WellFormed(s[..Head(s).len])
    ensures Head(s).Reject? <==> Malformed(s)
    ensures !Head(s).Packet? ==> forall n: nat :: n <= |s| ==> !WellFormed(s[..n])
  {
    hide ParseHeader, Head;
    HeadBytes(s);
    forall n: nat | n <= |s| && WellFormed(s[..n]) ensures Head(s) == Packet(n, n > 24) {
      assert s[..n][..8] == s[..8];
    }
    if Head(s).Packet? {
      assert s[..Head(s).len][..8] == s[..8];
    }
  }

  /** Parsing loses nothing and makes nothing up: the stream is its packets, each of them well formed, and
      a rest which is refused exactly when it starts with a malformed header, and else holds no packet. */
  lemma {:induction false} WholeParts(s: seq<Byte>) returns (rest: seq<Byte>)
    ensures s == Concat(Whole(s).packets) + rest && forall p :: p in Whole(s).packets ==> WellFormed(p)
    ensures Whole(s).rejected <==> Malformed(rest)
    ensures forall n: nat :: n <= |rest| ==> !WellFormed(rest[..n])
    decreases |s|
  {
    hide Head, WellFormed, Malformed;
    HeadWellFormed(s);
    rest := s;
    match Head(s)
    case Packet(n, hasData) =>
      rest := WholeParts(s[n..]);
      ConcatFirst(s[..n], Whole(s[n..]).packets);
      assert s == s[..n] + s[n..];
    case _ =>
  }

  lemma {:induction false} ConcatFirst(p: seq<Byte>, ps: seq<seq<Byte>>)
    ensures Concat([p] + ps) == p + Concat(ps)
  {
    var all := [p] + ps;
    if ps == [] {
      assert all[..0] == [];
    } else {
      ConcatFirst(p, ps[..|ps| - 1]);
      assert all[..|all| - 1] == [p] + ps[..|ps| - 1];
    }
  }

  // ----- what the server does

  /** The handler ends the data with a NUL, which is the first byte behind the packet. */
  function Behind(s: seq<Byte>, n: nat, hasData: bool): (r: seq<Byte>)
    requires n <= |s|
    ensures |r| == |s| - n
  {
    if hasData && n < |s| then s[n..][0 := 0] else s[n..]
  }

  datatype Conn = Conn(buf: seq<Byte>, out: Outcome)

  /** The inner loop on a buffer's contents. */
  function Process(s: seq<Byte>): (c: Conn)
    ensures !c.out.rejected ==> Head(c.buf).Wait?
    decreases |s|
  {
    match Head(s)
    case Wait => Conn(s, Outcome([], false))
    case Reject => Conn(s, Outcome([], true))
    case Packet(n, hasData) =>
      var c := Process(Behind(s, n, hasData));
      Conn(c.buf, c.out.After([s[..n]]))
  }

  /** The outer loop: each chunk goes behind what the previous rounds have left over. */
  function Receive(chunks: seq<seq<Byte>>): (c: Conn)
    ensures !c.out.rejected ==> Head(c.buf).Wait?
  {
    if chunks == [] then Conn([], Outcome([], false))
    else
      var c := Receive(chunks[..|chunks| - 1]);
      if c.out.rejected then c
      else
        var d := Process(c.buf + chunks[|chunks| - 1]);
        Conn(d.buf, d.out.After(c.out.packets))
  }

  function Concat(chunks: seq<seq<Byte>>): seq<Byte>
  {
    if chunks == [] then [] else Concat(chunks[..|chunks| - 1]) + chunks[|chunks| - 1]
  }

  // ----- the server's run, told on the stream and its receive boundaries

  ghost predicate Boundary(chunks: seq<seq<Byte>>, e: nat)
  {
    exists j :: 0 <= j <= |chunks| && |Concat(chunks[..j])| == e
  }

  /** From position pos on; dirty says that the byte at pos has been overwritten by a NUL. */
  ghost function Run(s: seq<Byte>, chunks: seq<seq<Byte>>, pos: nat, dirty: bool): Outcome
    requires pos <= |s|
    decreases |s| - pos
  {
    if dirty then Outcome([], |s| - pos >= TCP_HEADER_SIZE)
    else match Head(s[pos..])
      case Wait => Outcome([], false)
      case Reject => Outcome([], true)
      case Packet(n, hasData) =>
        Run(s, chunks, pos + n, hasData && !Boundary(chunks, pos + n)).After([s[pos..pos + n]])
  }

  function Slice(s: seq<Byte>, pos: nat, r: nat, dirty: bool): (b: seq<Byte>)
    requires pos <= r <= |s| && (dirty ==> pos < r)
    ensures |b| == r - pos
  {
    if dirty then s[pos..r][0 := 0] else s[pos..r]
  }

  /** A packet at the head of a slice is the packet at its place in the stream. */
  lemma HeadOfSlice(s: seq<Byte>, pos: nat, r: nat)
    requires pos <= r <= |s|
    ensures !Head(s[pos..r]).Wait? ==> Head(s[pos..]) == Head(s[pos..r])
    ensures Head(s[pos..]).Packet? && pos + Head(s[pos..]).len <= r ==> Head(s[pos..r]) == Head(s[pos..])
  {
    if r - pos >= TCP_HEADER_SIZE {
      assert s[pos..r][..TCP_HEADER_SIZE] == s[pos..][..TCP_HEADER_SIZE];
      HeaderPrefix(s[pos..r], s[pos..]);
    }
  }

  lemma NulHead(s: seq<Byte>)
    requires |s| > 0 && s[0] == 0
    ensures Head(s) == if |s| < TCP_HEADER_SIZE then Wait else Reject
  {
    if |s| >= TCP_HEADER_SIZE {
      NulHeader(s);
    }
  }

  /** One packet of the inner loop, seen on the stream: its handler's NUL lands on the
      next packet exactly when its end is not a receive boundary. */
  lemma PacketStep(s: seq<Byte>, chunks: seq<seq<Byte>>, pos: nat, q: nat, r: nat)
    requires pos <= r <= |s| && q <= r && Boundary(chunks, r)
    requires forall b: nat :: Boundary(chunks, b) ==> b <= q || b >= r
    requires pos >= q || Head(s[pos..q]).Wait?
    requires Head(s[pos..r]).Packet?
    ensures var n, hasData := Head(s[pos..r]).len, Head(s[pos..r]).hasData;
            var e, d := pos + n, hasData && pos + n < r;
            && q < e <= r && Behind(s[pos..r], n, hasData) == Slice(s, e, r, d) && s[pos..r][..n] == s[pos..e]
            && Run(s, chunks, pos, false) == Run(s, chunks, e, d).After([s[pos..e]])
  {
    hide ParseHeader;
    HeadOfSlice(s, pos, r);
    var n, hasData := Head(s[pos..r]).len, Head(s[pos..r]).hasData;
    var e := pos + n;
    if pos < q {
      HeadOfSlice(s, pos, q);
    }
    assert e > q;
    assert Boundary(chunks, e) <==> e == r;
  }

  lemma ProcessStep(s: seq<Byte>)
    ensures !Head(s).Packet? ==> Process(s) == Conn(s, Outcome([], Head(s).Reject?))
    ensures Head(s).Packet? ==>
              var n := Head(s).len;
              var c := Process(Behind(s, n, Head(s).hasData));
              Process(s) == Conn(c.buf, c.out.After([s[..n]]))
  {
    hide ParseHeader;
  }

  /** The inner loop's side of a round without a packet: a NUL in front, or a head that is not one. */
  lemma NoPacket(s: seq<Byte>, chunks: seq<seq<Byte>>, pos: nat, r: nat, dirty: bool)
    requires pos <= r <= |s| && (dirty ==> pos < r) && (dirty || !Head(s[pos..r]).Packet?)
    ensures var c := Process(Slice(s, pos, r, dirty));
            && (c.out.rejected ==> Run(s, chunks, pos, dirty) == c.out)
            && (!c.out.rejected ==> c == Conn(Slice(s, pos, r, dirty), Outcome([], false)))
  {
    hide ParseHeader, Boundary, Head, Process;
    ProcessStep(Slice(s, pos, r, dirty));
    if dirty {
      NulHead(Slice(s, pos, r, dirty));
    } else {
      HeadOfSlice(s, pos, r);
    }
  }

  /** The inner loop between the boundaries q and r, against the run on the stream. */
  lemma {:induction false} ProcessRuns(s: seq<Byte>, chunks: seq<seq<Byte>>, pos: nat, q: nat, r: nat, dirty: bool)
      returns (pos': nat, dirty': bool)
    requires pos <= r <= |s| && q <= r && (dirty ==> pos < r) && Boundary(chunks, r)
    requires forall b: nat :: Boundary(chunks, b) ==> b <= q || b >= r
    requires pos >= q || dirty || Head(s[pos..q]).Wait?
    ensures var c := Process(Slice(s, pos, r, dirty));
            && (c.out.rejected ==> Run(s, chunks, pos, dirty) == c.out)
            && (!c.out.rejected ==>
                  && pos' <= r && (dirty' ==> pos' < r) && c.buf == Slice(s, pos', r, dirty')
                  && Run(s, chunks, pos, dirty) == Run(s, chunks, pos', dirty').After(c.out.packets))
    decreases r - pos
  {
    hide ParseHeader, Boundary, Head, Process, Run, Behind;
    pos', dirty' := pos, dirty;
    if dirty || !Head(s[pos..r]).Packet? {
      NoPacket(s, chunks, pos, r, dirty);
      AfterNone(Run(s, chunks, pos, dirty));
    } else {
      var e := pos + Head(s[pos..r]).len;
      var d := Head(s[pos..r]).hasData && e < r;
      PacketStep(s, chunks, pos, q, r);
      ProcessStep(s[pos..r]);
      pos', dirty' := ProcessRuns(s, chunks, e, q, r, d);
      var c := Process(Slice(s, e, r, d));
      if !c.out.rejected {
        AfterTwice(Run(s, chunks, pos', dirty'), c.out.packets, [s[pos..e]]);
      }
    }
  }

  lemma {:induction false} ConcatPrefix(chunks: seq<seq<Byte>>, j: nat, k: nat)
    requires j <= k <= |chunks|
    ensures |Concat(chunks[..j])| <= |Concat(chunks[..k])|
    ensures Concat(chunks[..k])[..|Concat(chunks[..j])|] == Concat(chunks[..j])
    decreases k
  {
    if j < k {
      ConcatPrefix(chunks, j, k - 1);
      assert chunks[..k][..k - 1] == chunks[..k - 1];
    }
  }

  /** Nothing is a boundary strictly between two consecutive ones. */
  lemma Between(chunks: seq<seq<Byte>>, k: nat)
    requires k < |chunks|
    ensures var q, r := |Concat(chunks[..k])|, |Concat(chunks[..k + 1])|;
            && q <= r <= |Concat(chunks)| && Boundary(chunks, r)
            && forall b: nat :: Boundary(chunks, b) ==> b <= q || b >= r
  {
    var q, r := |Concat(chunks[..k])|, |Concat(chunks[..k + 1])|;
    ConcatPrefix(chunks, k, k + 1);
    ConcatPrefix(chunks, k + 1, |chunks|);
    assert chunks[..|chunks|] == chunks;
    forall b: nat | Boundary(chunks, b) ensures b <= q || b >= r {
      var j :| 0 <= j <= |chunks| && |Concat(chunks[..j])| == b;
      if j <= k {
        ConcatPrefix(chunks, j, k);
      } else {
        ConcatPrefix(chunks, k + 1, j);
      }
    }
  }

  /** The next chunk goes behind what is left of the stream so far. */
  lemma NextSlice(chunks: seq<seq<Byte>>, k: nat, pos: nat, dirty: bool)
    requires 0 < k <= |chunks|
    requires var q, r, n := |Concat(chunks[..k - 1])|, |Concat(chunks[..k])|, |Concat(chunks)|;
             pos <= q <= r <= n && (dirty ==> pos < q)
    ensures var s, q, r := Concat(chunks), |Concat(chunks[..k - 1])|, |Concat(chunks[..k])|;
            Slice(s, pos, q, dirty) + chunks[k - 1] == Slice(s, pos, r, dirty)
  {
    hide Concat;
    var s, q, r := Concat(chunks), |Concat(chunks[..k - 1])|, |Concat(chunks[..k])|;
    ConcatPrefix(chunks, k, |chunks|);
    assert chunks[..|chunks|] == chunks;
    ConcatLast(chunks, k);
    assert s[..r] == Concat(chunks[..k - 1]) + chunks[k - 1];
    assert s[q..r] == chunks[k - 1];
  }

  lemma ConcatLast(chunks: seq<seq<Byte>>, k: nat)
    requires 0 < k <= |chunks|
    ensures Concat(chunks[..k]) == Concat(chunks[..k - 1]) + chunks[k - 1]
  {
    assert chunks[..k][..k - 1] == chunks[..k - 1];
  }

  /** After any number of receives, the buffer is what the run has still before it. */
  lemma {:induction false} ReceiveRuns(chunks: seq<seq<Byte>>, k: nat) returns (pos: nat, dirty: bool)
    requires k <= |chunks|
    ensures var s, c, r := Concat(chunks), Receive(chunks[..k]), |Concat(chunks[..k])|;
            && r <= |s|
            && (c.out.rejected ==> Run(s, chunks, 0, false) == c.out)
            && (!c.out.rejected ==>
                  && pos <= r && (dirty ==> pos < r) && c.buf == Slice(s, pos, r, dirty)
                  && Run(s, chunks, 0, false) == Run(s, chunks, pos, dirty).After(c.out.packets))
    decreases k
  {
    hide Run, Process, Head, Boundary;
    var s := Concat(chunks);
    pos, dirty := 0, false;
    if k == 0 {
      AfterNone(Run(s, chunks, 0, false));
    } else {
      pos, dirty := ReceiveRuns(chunks, k - 1);
      var c, q, r := Receive(chunks[..k - 1]), |Concat(chunks[..k - 1])|, |Concat(chunks[..k])|;
      assert chunks[..k][..k - 1] == chunks[..k - 1] && chunks[..k][k - 1] == chunks[k - 1];
      Between(chunks, k - 1);
      if !c.out.rejected {
        NextSlice(chunks, k, pos, dirty);
        var pos', dirty' := ProcessRuns(s, chunks, pos, q, r, dirty);
        var d := Process(Slice(s, pos, r, dirty));
        if !d.out.rejected {
          AfterTwice(Run(s, chunks, pos', dirty'), d.out.packets, c.out.packets);
        }
        pos, dirty := pos', dirty';
      }
    }
  }

  /** The server's packets and its refusal are those of the run. */
  lemma ReceiveIsRun(chunks: seq<seq<Byte>>)
    ensures Receive(chunks).out == Run(Concat(chunks), chunks, 0, false)
  {
    var s := Concat(chunks);
    assert chunks[..|chunks|] == chunks;
    var pos, dirty := ReceiveRuns(chunks, |chunks|);
    var c := Receive(chunks);
    if !c.out.rejected {
      if dirty {
        NulHead(c.buf);
      } else {
        assert s[pos..] == c.buf;
      }
      assert Run(s, chunks, pos, dirty) == Outcome([], false);
      assert c.out.packets + [] == c.out.packets;
    }
  }

  // ----- when fragmentation does not matter

  /** A well-formed header starts at e. */
  predicate HeaderAt(s: seq<Byte>, e: nat)
  {
    e + TCP_HEADER_SIZE <= |s| && ParseHeader(s[e..]).Good?
  }

  /** Every packet with data that is followed by a well-formed header ends at a receive boundary. */
  ghost predicate Aligned(s: seq<Byte>, chunks: seq<seq<Byte>>, pos: nat)
    requires pos <= |s|
    decreases |s| - pos
  {
    match Head(s[pos..])
    case Packet(n, hasData) =>
      (hasData && HeaderAt(s, pos + n) ==> Boundary(chunks, pos + n)) && Aligned(s, chunks, pos + n)
    case _ => true
  }

  lemma {:induction false} RunIsWholeIff(s: seq<Byte>, chunks: seq<seq<Byte>>, pos: nat)
    requires pos <= |s|
    ensures Run(s, chunks, pos, false) == Whole(s[pos..]) <==> Aligned(s, chunks, pos)
    decreases |s| - pos
  {
    hide Boundary, ParseHeader;
    match Head(s[pos..])
    case Wait =>
    case Reject =>
    case Packet(n, hasData) =>
      var e := pos + n;
      assert s[pos..][n..] == s[e..] && s[pos..][..n] == s[pos..e];
      RunIsWholeIff(s, chunks, e);
      AfterInjective(Run(s, chunks, e, hasData && !Boundary(chunks, e)), Whole(s[e..]), [s[pos..e]]);
  }

  lemma AfterInjective(o: Outcome, o': Outcome, a: seq<seq<Byte>>)
    ensures o.After(a) == o'.After(a) <==> o == o'
  {
    assert (a + o.packets)[|a|..] == o.packets && (a + o'.packets)[|a|..] == o'.packets;
  }

  /** The packets handed on, and the point of refusal, are those of the whole stream exactly when
      no packet with data is received together with bytes of a following well-formed packet. */
  lemma FramingIff(chunks: seq<seq<Byte>>)
    ensures Receive(chunks).out == Whole(Concat(chunks)) <==> Aligned(Concat(chunks), chunks, 0)
  {
    ReceiveIsRun(chunks);
    RunIsWholeIff(Concat(chunks), chunks, 0);
    assert Concat(chunks)[0..] == Concat(chunks);
  }

  lemma OnePacket(p: seq<Byte>)
    requires Head(p).Packet? && Head(p).len == |p|
    ensures Process(p) == Conn([], Outcome([p], false)) && Whole(p) == Outcome([p], false)
  {
    hide ParseHeader;
    assert p[|p|..] == [] && p[..|p|] == p && [p] + [] == [p];
  }

  lemma HeadOfBoth(p: seq<Byte>, q: seq<Byte>)
    requires Head(p).Packet? && Head(p).len == |p|
    ensures Head(p + q) == Head(p)
  {
    HeadOfSlice(p + q, 0, |p|);
    assert (p + q)[0..] == p + q && (p + q)[0..|p|] == p;
  }

  lemma ReceiveOne(chunks: seq<seq<Byte>>, c: seq<Byte>)
    requires !Receive(chunks).out.rejected
    ensures var d := Process(Receive(chunks).buf + c);
            Receive(chunks + [c]) == Conn(d.buf, d.out.After(Receive(chunks).out.packets))
  {
    assert (chunks + [c])[..|chunks|] == chunks;
  }

  lemma EmptyReceive(c: seq<Byte>)
    ensures Receive([c]) == Process(c)
  {
    assert [] + [c] == [c] && [] + c == c;
    assert Receive([]) == Conn([], Outcome([], false));
    ReceiveOne([], c);
    AfterNone(Process(c).out);
  }

  lemma ReceivedApart(p: seq<Byte>, q: seq<Byte>)
    requires Head(p).Packet? && Head(p).len == |p| && Head(q).Packet? && Head(q).len == |q|
    ensures Receive([p, q]).out == Outcome([p, q], false)
  {
    hide ParseHeader, Receive, Head;
    OnePacket(p);
    OnePacket(q);
    EmptyReceive(p);
    assert [p] + [q] == [p, q] && [] + q == q;
    ReceiveOne([p], q);
  }

  lemma ReceivedTogether(p: seq<Byte>, q: seq<Byte>)
    requires Head(p) == Packet(|p|, true) && Head(q).Packet? && Head(q).len == |q|
    ensures Receive([p + q]).out == Outcome([p], true)
  {
    HeadOfBoth(p, q);
    hide ParseHeader, Receive;
    EmptyReceive(p + q);
    assert (p + q)[..|p|] == p && (p + q)[|p|..] == q;
    var r := Behind(p + q, |p|, true);
    assert r == q[0 := 0];
    NulHead(r);
    assert [p] + [] == [p];
  }

  /** Two good packets, the first with data: received apart both are handed on, received
      together only the first is, and the connection is closed. */
  lemma PipeliningFails(p: seq<Byte>, q: seq<Byte>)
    requires Head(p) == Packet(|p|, true) && Head(q).Packet? && Head(q).len == |q|
    ensures Receive([p, q]).out == Outcome([p, q], false) == Whole(p + q)
    ensures Receive([p + q]).out == Outcome([p], true)
  {
    ReceivedApart(p, q);
    ReceivedTogether(p, q);
    HeadOfBoth(p, q);
    OnePacket(q);
    assert (p + q)[..|p|] == p && (p + q)[|p|..] == q && [p] + [q] == [p, q];
  }

  /** Behind a packet without data another one may arrive at once. */
  lemma PipeliningWithoutData(p: seq<Byte>, q: seq<Byte>)
    requires Head(p) == Packet(|p|, false) && Head(q).Packet? && Head(q).len == |q|
    ensures Receive([p + q]).out == Outcome([p, q], false)
  {
    HeadOfBoth(p, q);
    hide ParseHeader, Receive, Head;
    EmptyReceive(p + q);
    OnePacket(q);
    assert (p + q)[..|p|] == p && Behind(p + q, |p|, false) == (p + q)[|p|..] == q && [p] + [q] == [p, q];
  }
}
