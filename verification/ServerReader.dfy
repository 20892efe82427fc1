/** The connection loop of ntyco.c over its 4096-byte buffer, and the command split of kvstore.c. */
module ServerReader {
  import opened Framing
  import opened Wrappers

  // ----- the key/value split

  /** A command's arguments: NULL pointers are None. */
  datatype Command = Command(key: Option<seq<Byte>>, value: Option<seq<Byte>>)

  /** What C reads as a string: the bytes before the first NUL. */
  function CString(s: seq<Byte>): (r: seq<Byte>)
    ensures |r| <= |s| && r == s[..|r|] && 0 !in r
    ensures |r| < |s| ==> s[|r|] == 0
  {
    if s == [] || s[0] == 0 then [] else [s[0]] + CString(s[1..])
  }

  /** The place of the first blank, or the length. */
  function Blank(s: seq<Byte>): (i: nat)
    ensures i <= |s| && 32 !in s[..i] && (i < |s| ==> s[i] == 32)
  {
    if s == [] || s[0] == 32 then 0 else 1 + Blank(s[1..])
  }

  function Split(data: seq<Byte>): Command
  {
    if data == [] then Command(None, None)
    else
      var text := CString(data);
      var i := Blank(text);
      if i == |text| then Command(Some(text), None) else Command(Some(text[..i]), Some(CString(text[i + 1..])))
  }

  lemma BlankAt(s: seq<Byte>, i: nat)
    requires i < |s| && s[i] == 32 && 32 !in s[..i]
    ensures Blank(s) == i
  {
    var j := Blank(s);
    assert forall k :: 0 <= k < i ==> s[k] == s[..i][k];
    assert forall k :: 0 <= k < j ==> s[k] == s[..j][k];
  }

  lemma {:induction false} CStringWhole(s: seq<Byte>)
    requires 0 !in s
    ensures CString(s) == s
  {
    assert forall k :: 0 <= k < |s| ==> s[k] in s;
    assert CString(s) == s[..|s|];
  }

  /** What a command comes to. Let t be the data before its first NUL: without a blank it is the key, and
      there is no value; else its first blank stands between the key and the value. */
  lemma SplitMeans(data: seq<Byte>, t: seq<Byte>)
    requires data != [] && t <= data && 0 !in t && (|t| < |data| ==> data[|t|] == 0)
    ensures 32 !in t ==> Split(data) == Command(Some(t), None)
    ensures 32 in t ==>
              var c := Split(data);
              && c.key.Some? && c.value.Some? && 32 !in c.key.value
              && c.key.value + [32] + c.value.value == t
  {
    TextIs(data, t);
    var i := Blank(t);
    if i == |t| {
      assert t[..i] == t;
    } else {
      assert t == t[..i] + [32] + t[i + 1..];
      assert forall k :: i + 1 <= k < |t| ==> t[k] in t;
      CStringWhole(t[i + 1..]);
    }
  }

  lemma TextIs(s: seq<Byte>, t: seq<Byte>)
    requires t <= s && 0 !in t && (|t| < |s| ==> s[|t|] == 0)
    ensures CString(s) == t
  {
    assert s[..|t|] == t;
    CStringEnd(s, |t|);
  }

  /** "key value" is split back into key and value, exactly when the key holds no blank. */
  lemma SplitRoundTrip(key: seq<Byte>, value: seq<Byte>)
    requires 0 !in key && 0 !in value
    ensures Split(key + [32] + value) == Command(Some(key), Some(value)) <==> 32 !in key
  {
    var data := key + [32] + value;
    CStringWhole(data);
    var i := Blank(data);
    assert data[|key|] == 32;
    if 32 !in key {
      assert data[..|key|] == key;
      BlankAt(data, |key|);
      assert data[|key| + 1..] == value;
      CStringWhole(value);
    } else {
      assert 32 !in data[..i];
    }
  }

  /** What is handed to the stores: NUL-free strings that fit into the packet's data together. */
  lemma SplitBounds(data: seq<Byte>)
    ensures var c := Split(data);
            && (c.key.None? <==> data == [])
            && (c.key.Some? ==> 0 !in c.key.value && |c.key.value| <= |data|)
            && (c.value.Some? ==>
                  && c.key.Some? && 0 !in c.value.value && 32 !in c.key.value
                  && |c.key.value| + 1 + |c.value.value| <= |data|)
  {
    if data != [] {
      var text := CString(data);
      var i := Blank(text);
      assert forall k :: 0 <= k < i ==> text[..i][k] in text;
    }
  }

  /** strchr(s, ' ') on the string that starts at `from`: the blank's place, or -1. */
  method FindBlank(buffer: array<Byte>, from: nat, end: nat) returns (at: int)
    requires from <= end < buffer.Length && buffer[end] == 0
    ensures var text := CString(buffer[from..end]);
            at == if Blank(text) == |text| then -1 else from + Blank(text)
  {
    var i := from;
    ghost var s := buffer[from..end];
    while buffer[i] != 0 && buffer[i] != 32
      invariant from <= i <= end && 0 !in s[..i - from] && 32 !in s[..i - from]
      decreases end - i
    {
      assert s[..i + 1 - from] == s[..i - from] + [buffer[i]];
      i := i + 1;
    }
    BlankFound(s, i - from);
    at := if buffer[i] == 32 then i else -1;
  }

  /** The first NUL or blank decides whether the string has a blank, and where. */
  lemma BlankFound(s: seq<Byte>, k: nat)
    requires k <= |s| && 0 !in s[..k] && 32 !in s[..k] && (k < |s| ==> s[k] == 0 || s[k] == 32)
    ensures var text := CString(s);
            if k < |s| && s[k] == 32 then k < |text| && Blank(text) == k else Blank(text) == |text|
  {
    hide Blank, CString;
    var text := CString(s);
    CStringEnd(s, k);
    assert text[..k] == s[..k];
    if k < |s| && s[k] == 32 {
      BlankAt(text, k);
    } else {
      assert text == text[..k];
      NoBlank(text);
    }
  }

  lemma {:induction false} CStringEnd(s: seq<Byte>, k: nat)
    requires k <= |s| && 0 !in s[..k]
    ensures |CString(s)| >= k && (|CString(s)| == k <==> k == |s| || s[k] == 0)
  {
    if k > 0 {
      assert s[0] == s[..k][0] && s[1..][..k - 1] == s[..k][1..];
      CStringEnd(s[1..], k - 1);
    }
  }

  lemma NoBlank(text: seq<Byte>)
    requires 32 !in text
    ensures Blank(text) == |text|
  {
    assert forall k :: 0 <= k < |text| ==> text[k] in text;
  }

  /** The split of kvs_tcp_protocol on the NUL-terminated data between `from` and `end`. */
  method SplitInPlace(buffer: array<Byte>, from: nat, end: nat) returns (command: Command)
    requires from < end < buffer.Length && buffer[end] == 0
    modifies buffer
    ensures command == Split(old(buffer[from..end]))
    ensures forall k :: end <= k < buffer.Length ==> buffer[k] == old(buffer[k])
  {
    hide Blank, CString;
    ghost var data, text := buffer[from..end], CString(buffer[from..end]);
    var at := FindBlank(buffer, from, end);
    if at < 0 {
      return Command(Some(CString(buffer[from..end])), None);
    }
    RestOfText(data, Blank(text));
    assert buffer[at + 1..end] == data[Blank(text) + 1..];
    assert buffer[from..at] == data[..Blank(text)] == data[..|text|][..Blank(text)];
    command := Command(Some(buffer[from..at]), Some(CString(buffer[at + 1..end])));
    buffer[at] := 0;
  }

  /** kvs_tcp_protocol up to its switch, on the first total bytes of the buffer: the data gets a
      NUL behind it, and another one in the place of its first blank. */
  method Handle(buffer: array<Byte>, total: nat) returns (command: Command)
    requires TCP_HEADER_SIZE <= total < buffer.Length
    modifies buffer
    ensures command == Split(old(buffer[TCP_HEADER_SIZE..total]))
    ensures forall k :: total < k < buffer.Length ==> buffer[k] == old(buffer[k])
    ensures buffer[total] == if total > TCP_HEADER_SIZE then 0 else old(buffer[total])
  {
    command := Command(None, None);
    if total > TCP_HEADER_SIZE {
      ghost var data := buffer[TCP_HEADER_SIZE..total];
      buffer[total] := 0;
      assert buffer[TCP_HEADER_SIZE..total] == data;
      command := SplitInPlace(buffer, TCP_HEADER_SIZE, total);
    }
  }

  lemma RestOfText(data: seq<Byte>, i: nat)
    requires i < |CString(data)|
    ensures CString(CString(data)[i + 1..]) == CString(data[i + 1..])
  {
    var text := CString(data);
    var rest := data[i + 1..];
    var a, b := text[i + 1..], CString(rest);
    forall k | 0 <= k < |a| ensures a[k] != 0 && a[k] == rest[k] {
      assert a[k] == text[i + 1 + k] && text[i + 1 + k] in text;
    }
    CStringWhole(a);
    assert forall k :: 0 <= k < |b| ==> rest[k] == b[k] && b[k] in b;
    assert |text| < |data| ==> rest[|a|] == data[|text|];
    assert a == b;
  }

  // ----- the loops

  /** What the handler is to do: a command number and the command's arguments. */
  datatype Request = Request(cmdType: nat, command: Command)

  /** The request in a packet: its number is in the bytes from 8 on, its arguments behind the header. */
  ghost predicate RequestIn(r: Request, packet: seq<Byte>)
  {
    && |packet| >= 24 && r.command == Split(packet[24..])
    && r.cmdType == packet[8] as int * 0x1000000 + packet[9] as int * 0x10000 + packet[10] as int * 0x100 + packet[11]
  }

  ghost predicate AllRequested(requests: seq<Request>, packets: seq<seq<Byte>>)
  {
    |requests| == |packets| && forall i :: 0 <= i < |requests| ==> RequestIn(requests[i], packets[i])
  }

  lemma RequestMade(front: seq<Byte>, packet: seq<Byte>, command: Command)
    requires |front| == 24 <= |packet| && packet[..24] == front && ParseHeader(front).Good? && command == Split(packet[24..])
    ensures RequestIn(Request(ParseHeader(front).header.cmdType, command), packet)
  {
    hide Split, ParseHeader;
    HeaderBytes(front);
    assert forall i :: 0 <= i < 24 ==> packet[i] == packet[..24][i];
  }

  /** memmove(buffer, buffer + from, len - from). */
  method Memmove(buffer: array<Byte>, from: nat, len: nat)
    requires from <= len <= buffer.Length
    modifies buffer
    ensures buffer[..len - from] == old(buffer[from..len])
  {
    var i := 0;
    while i < len - from
      invariant 0 <= i <= len - from
      invariant buffer[..i] == old(buffer[from..from + i])
      invariant forall k :: from + i <= k < len ==> buffer[k] == old(buffer[k])
    {
      buffer[i] := buffer[from + i];
      i := i + 1;
    }
  }

  /** The handler's call and the move of what is behind the packet. */
  method HandleAndMove(buffer: array<Byte>, total: nat, len: nat) returns (command: Command)
    requires TCP_HEADER_SIZE <= total <= len <= buffer.Length && total < buffer.Length
    modifies buffer
    ensures buffer[..len - total] == Behind(old(buffer[..len]), total, total > TCP_HEADER_SIZE)
    ensures command == Split(old(buffer[TCP_HEADER_SIZE..total]))
  {
    hide Split;
    ghost var s := buffer[..len];
    command := Handle(buffer, total);
    assert buffer[total..len] == Behind(s, total, total > TCP_HEADER_SIZE);
    Memmove(buffer, total, len);
  }

  /** What one round of the inner loop finds at the head of the buffer. */
  lemma Round(s: seq<Byte>, front: seq<Byte>)
    requires |s| >= TCP_HEADER_SIZE && front == s[..TCP_HEADER_SIZE]
    ensures var p := ParseHeader(front);
            && (!p.Good? ==> Process(s) == Conn(s, Outcome([], true)))
            && (p.Good? ==> p.header.dataLen <= MAX_DATA)
            && (p.Good? && |s| < TCP_HEADER_SIZE + p.header.dataLen ==> Process(s) == Conn(s, Outcome([], false)) && Head(s).Wait?)
            && (p.Good? && |s| >= TCP_HEADER_SIZE + p.header.dataLen ==>
                  var n := TCP_HEADER_SIZE + p.header.dataLen;
                  var c := Process(Behind(s, n, n > TCP_HEADER_SIZE));
                  Process(s) == Conn(c.buf, c.out.After([s[..n]])))
  {
    assert front[..TCP_HEADER_SIZE] == s[..TCP_HEADER_SIZE];
    HeaderPrefix(front, s);
  }

  lemma RoundShort(s: seq<Byte>)
    requires |s| < TCP_HEADER_SIZE || Head(s).Wait?
    ensures Process(s) == Conn(s, Outcome([], false)) && |s| < TCP_HEADER_SIZE + MAX_DATA
  {
  }

  /** The inner loop: hands over every complete packet and moves the rest to the front. */
  method Drain(buffer: array<Byte>, len0: nat)
    returns (packets: seq<seq<Byte>>, requests: seq<Request>, rejected: bool, len: nat)
    requires buffer.Length == BUFFER_SIZE && len0 <= BUFFER_SIZE
    modifies buffer
    ensures len <= len0
    ensures var c := Process(old(buffer[..len0]));
            && packets == c.out.packets && rejected == c.out.rejected
            && (!rejected ==> buffer[..len] == c.buf && len < TCP_HEADER_SIZE + MAX_DATA)
    ensures AllRequested(requests, packets)
  {
    hide Process, Head, ParseHeader, Split, RequestIn;
    packets, requests, len := [], [], len0;
    ghost var all := Process(buffer[..len0]);
    AfterNone(all.out);
    while len >= TCP_HEADER_SIZE
      invariant len <= len0 && all.out == Process(buffer[..len]).out.After(packets)
      invariant all.buf == Process(buffer[..len]).buf && AllRequested(requests, packets)
    {
      ghost var s := buffer[..len];
      var header := ParseHeader(buffer[..TCP_HEADER_SIZE]);
      Round(s, buffer[..TCP_HEADER_SIZE]);
      if !header.Good? {
        assert packets + [] == packets;
        return packets, requests, true, len;
      }
      var totalLen := TCP_HEADER_SIZE + header.header.dataLen;
      if len < totalLen {
        break;
      }
      var packet := buffer[..totalLen];
      assert packet == s[..totalLen] && packet[TCP_HEADER_SIZE..] == buffer[TCP_HEADER_SIZE..totalLen];
      ghost var front := buffer[..TCP_HEADER_SIZE];
      assert packet[..TCP_HEADER_SIZE] == front;
      var command := HandleAndMove(buffer, totalLen, len);
      RequestMade(front, packet, command);
      len := len - totalLen;
      requests := requests + [Request(header.header.cmdType, command)];
      AfterTwice(Process(buffer[..len]).out, [packet], packets);
      packets := packets + [packet];
    }
    rejected := false;
    RoundShort(buffer[..len]);
    assert packets + [] == packets;
  }

  /** recv: what the stream has, up to the requested size and the room that is left. */
  method Recv(buffer: array<Byte>, len: nat, stream: seq<Byte>, at: nat, size: nat) returns (n: nat)
    requires len <= buffer.Length && at <= |stream|
    modifies buffer
    ensures n <= size && len + n <= buffer.Length && at + n <= |stream|
    ensures n == 0 <==> size == 0 || len == buffer.Length || at == |stream|
    ensures buffer[..len + n] == old(buffer[..len]) + stream[at..at + n]
  {
    n := size;
    if n > buffer.Length - len { n := buffer.Length - len; }
    if n > |stream| - at { n := |stream| - at; }
    var i := 0;
    while i < n
      invariant 0 <= i <= n
      invariant buffer[..len + i] == old(buffer[..len]) + stream[at..at + i]
    {
      buffer[len + i] := stream[at + i];
      i := i + 1;
    }
  }

  /** server_reader on a connection that delivers `stream`; the k-th recv returns at most sizes[k] bytes.
      The chunks are those that recv delivered. The buffer always has room for more, so the
      reader stops only at the end of the stream or of the recv calls, or at a refused header. */
  method ServerReader(stream: seq<Byte>, sizes: seq<nat>)
      returns (packets: seq<seq<Byte>>, requests: seq<Request>, rejected: bool, at: nat, calls: nat, ghost chunks: seq<seq<Byte>>)
    requires forall k :: 0 <= k < |sizes| ==> sizes[k] > 0
    ensures at <= |stream| && Concat(chunks) == stream[..at] && calls <= |sizes|
    ensures Outcome(packets, rejected) == Receive(chunks).out
    ensures AllRequested(requests, packets)
    ensures rejected || at == |stream| || calls == |sizes|
    ensures forall k :: 0 <= k < |chunks| ==> chunks[k] != []
  {
    hide Process, Receive, Concat, RequestIn;
    var buffer := new Byte[BUFFER_SIZE](_ => 0);
    var len: nat := 0;
    packets, requests, rejected, at, calls, chunks := [], [], false, 0, 0, [];
    Start();
    assert buffer[..0] == [];
    while calls < |sizes|
      invariant calls <= |sizes| && at <= |stream| && len < TCP_HEADER_SIZE + MAX_DATA
      invariant Concat(chunks) == stream[..at] && forall k :: 0 <= k < |chunks| ==> chunks[k] != []
      invariant Receive(chunks) == Conn(buffer[..len], Outcome(packets, false)) && AllRequested(requests, packets)
    {
      var n := Recv(buffer, len, stream, at, sizes[calls]);
      calls := calls + 1;
      if n == 0 {
        return;
      }
      ghost var chunk := stream[at..at + n];
      ConcatOne(chunks, chunk);
      assert stream[..at + n] == stream[..at] + chunk;
      ReceiveOne(chunks, chunk);
      chunks := chunks + [chunk];
      at, len := at + n, len + n;
      var more, made, bad;
      more, made, bad, len := Drain(buffer, len);
      packets, requests := packets + more, requests + made;
      if bad {
        rejected := true;
        return;
      }
    }
  }

  lemma Start()
    ensures Receive([]) == Conn([], Outcome([], false)) && Concat([]) == []
  {
  }

  lemma ConcatOne(chunks: seq<seq<Byte>>, c: seq<Byte>)
    ensures Concat(chunks + [c]) == Concat(chunks) + c
  {
    assert (chunks + [c])[..|chunks|] == chunks;
  }
}
