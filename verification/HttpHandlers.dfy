/**
 * The event handlers of the mock server over their own objects: clients, timer nodes, the two timer
 * lists and the response buffers, updated in place. Every handler is proved to do to the objects
 * exactly what EngineSpec.Step says, including when a write fails and the client is destroyed under it.
 */
module HttpHandlers {
  import opened Text
  import opened HttpFormat
  import opened TimerList
  import opened HttpBuffers
  import opened ClientProofs
  import opened DecisionProofs
  import opened RunProofs
  import Spec = EngineSpec

  /** snprintf of an expanded text: at most size - 1 bytes and a NUL; returns the untruncated length, or -1. */
  method Snprintf(buf: array<char>, size: nat, text: string) returns (len: Int32)
    requires 1 <= size <= buf.Length
    modifies buf
    ensures len == Printed(text)
    ensures len >= 0 && |text| < size ==> buf[..|text|] == text && buf[|text|] == '\0'
    ensures len >= 0 && |text| >= size ==> buf[..size - 1] == text[..size - 1] && buf[size - 1] == '\0'
    ensures buf[size..] == old(buf[size..])
  {
    if |text| > INT_MAX { return -1; }
    var n := if |text| < size then |text| else size - 1;
    forall i | 0 <= i < n { buf[i] := text[i]; }
    buf[n] := '\0';
    return |text|;
  }

  /** memcpy of `text` to buf[at..]. */
  method Memcpy(buf: array<char>, at: nat, text: string)
    requires at + |text| <= buf.Length
    modifies buf
    ensures buf[..] == old(buf[..at]) + text + old(buf[at + |text|..])
  {
    forall i | 0 <= i < |text| { buf[at + i] := text[i]; }
  }

  /** memset(buf + at, 70, n). */
  method Memset(buf: array<char>, at: nat, n: nat)
    requires at + n <= buf.Length
    modifies buf
    ensures buf[..at + n] == old(buf[..at]) + Fill(n) && buf[at + n..] == old(buf[at + n..])
  {
    forall i | 0 <= i < n { buf[at + i] := 'F'; }
  }

  /** CRLF and a NUL at buf[at..]. */
  method PutTrailer(buf: array<char>, at: nat)
    requires at + 3 <= buf.Length
    modifies buf
    ensures buf[..at + 3] == old(buf[..at]) + CRLF + "\0" && buf[at + 3..] == old(buf[at + 3..])
  {
    buf[at] := '\r';
    buf[at + 1] := '\n';
    buf[at + 2] := '\0';
  }

  lemma PrefixOf(s: string, a: string, b: string)
    requires s == a + b
    ensures s[..|a|] == a
  {
  }

  /** `size` bytes 'F', CRLF and a NUL, if they fit; returns the length without the NUL, as an int. */
  method CreateResponse(buf: array<char>, buffsize: nat, size: nat) returns (len: Int32)
    requires 3 <= buffsize
    requires size <= buffsize - 3 ==> size + 3 <= buf.Length
    modifies buf
    ensures size > buffsize - 3 ==> len == 0 && buf[..] == old(buf[..])
    ensures size <= buffsize - 3 ==> len == Wrap32(size + 2) && buf[..size + 3] == ContentBuffer(size) + "\0"
  {
    if size > buffsize - 3 { return 0; }
    Memset(buf, 0, size);
    PutTrailer(buf, size);
    return Wrap32(size + 2);
  }

  /** One data chunk at buf[at..]: size line, data, CRLF and a NUL; returns its length without the NUL. */
  method CreateChunkResponse(buf: array<char>, at: nat, datasize: nat) returns (len: Int32)
    requires at + |ChunkWire(datasize)| + 1 <= buf.Length && |ChunkWire(datasize)| <= INT_MAX
    modifies buf
    ensures len == |ChunkWire(datasize)| && buf[..at + len] == old(buf[..at]) + ChunkWire(datasize)
  {
    hide Print;
    var line := Print(datasize, 16) + CRLF;
    Memcpy(buf, at, line + "\0");
    var offset: Int32 := |line|;
    assert buf[..at + offset] == old(buf[..at]) + line;
    Memset(buf, at + offset, datasize);
    offset := offset + datasize;
    PutTrailer(buf, at + offset);
    len := offset + 2;
    ghost var whole := old(buf[..at]) + ChunkWire(datasize);
    assert buf[..at + offset + 3] == whole + "\0";
    PrefixOf(buf[..at + offset + 3], whole, "\0");
    assert buf[..at + len] == buf[..at + offset + 3][..at + len];
  }

  /** What the memory of a client holds. */
  datatype ClientFields = ClientFields(
    fd: int, offset: nat, requestComplete: nat, responseComplete: nat, lastActive: int, inbuf: string,
    tnidx: TimerNode?<Client>, owner: ClientMgr,
    isChunked: bool, chunkBlockNum: nat, chunkSize: nat, lastDataSize: nat, log: Spec.Ledger)

  /** struct client, with the unconsumed bytes of its event buffer. `live` is false once it is freed. */
  class Client {
    var fd: int
    var offset: nat
    var requestComplete: nat
    var responseComplete: nat
    var lastActive: int
    var inbuf: string
    var tnidx: TimerNode?<Client>
    var owner: ClientMgr
    var isChunked: bool
    var chunkBlockNum: nat
    var chunkSize: nat
    var lastDataSize: nat
    ghost var log: Spec.Ledger
    ghost var live: bool
    ghost var corpse: Option<ClientFields>    // the fields as free() left them

    constructor (fd: int, now: int, owner: ClientMgr)
      ensures this.fd == fd && this.owner == owner && live && tnidx == null
      ensures View() == Spec.FreshClient(now)
    {
      this.fd, this.owner := fd, owner;
      offset, requestComplete, responseComplete, lastActive := 0, 0, 0, now;
      inbuf, tnidx := "", null;
      isChunked, chunkBlockNum, chunkSize, lastDataSize := false, 0, 0, 0;
      log := Spec.Ledger("", [], "", [], 0, []);
      live, corpse := true, None;
    }

    /** The client as a value; its timer is the timeout of its node. */
    ghost function View(): Spec.Client
      reads this, (if tnidx == null then {} else {tnidx})`timeout
    {
      Spec.Client(offset, requestComplete, responseComplete, lastActive,
                  if tnidx == null then None else Some(tnidx.timeout),
                  isChunked, chunkBlockNum, chunkSize, lastDataSize, inbuf, log)
    }

    ghost function Fields(): ClientFields
      reads this
    {
      ClientFields(fd, offset, requestComplete, responseComplete, lastActive, inbuf, tnidx, owner,
                   isChunked, chunkBlockNum, chunkSize, lastDataSize, log)
    }

    /** Freed, and not written to since. */
    ghost predicate Dead()
      reads this
    {
      !live && corpse == Some(Fields())
    }

    /** free(), of a client that has not been freed: nothing is known of its fields afterwards. */
    method Free()
      requires live
      modifies this
      ensures Dead()
    {
      live, corpse := false, Some(Fields());
    }
  }

  lemma {:induction false} WithoutSplit(a: seq<int>, fd: int, b: seq<int>)
    requires fd !in a && fd !in b
    ensures Spec.Without(a + [fd] + b, fd) == a + b
  {
    if a == [] {
      assert ([] + [fd] + b)[1..] == b;
    } else {
      WithoutSplit(a[1..], fd, b);
      assert (a + [fd] + b)[1..] == a[1..] + [fd] + b;
      assert a + b == [a[0]] + (a[1..] + b);
    }
  }

  /** The position of the client in the queue is the one that is taken out. */
  lemma WithoutAt(q: seq<int>, k: nat)
    requires k < |q| && Distinct(q)
    ensures Spec.Without(q, q[k]) == q[..k] + q[k + 1..]
  {
    WithoutSplit(q[..k], q[k], q[k + 1..]);
    assert q == q[..k] + [q[k]] + q[k + 1..];
  }

  /** struct client_mgr, with the table by which the event library finds a descriptor's client. */
  class ClientMgr {
    const sargs: Spec.Config
    const responseBuf: array<char>
    const responseBodyBuf: array<char>
    var current: TimerMgr<Client>
    var backup: TimerMgr<Client>
    var currentConn: int
    var registry: map<int, Client>
    ghost var clients: set<Client>            // every client allocated and not freed
    ghost var pool: set<TimerNode<Client>>    // every timer node allocated and not freed
    ghost var freed: set<Client>              // every client freed so far
    ghost var freedNodes: set<TimerNode<Client>>
    ghost var queue: seq<int>                 // the descriptors of current's nodes, head to tail
    ghost var kept: seq<int>                  // and of backup's

    constructor (sargs: Spec.Config)
      ensures this.sargs == sargs && Valid() && Abs() == Spec.EMPTY_BOARD
      ensures clients == {} && pool == {} && freed == {} && freedNodes == {} && Made() == 0
      ensures fresh(current) && fresh(backup)
      ensures fresh(responseBuf) && fresh(responseBodyBuf)
    {
      this.sargs := sargs;
      responseBuf := new char[BuffSize(sargs.maxSize)](_ => '\0');
      responseBodyBuf := new char[sargs.maxSize + 2 + 1](_ => '\0');
      current := new TimerMgr<Client>();
      backup := new TimerMgr<Client>();
      currentConn, registry := 0, map[];
      queue, kept, pool, clients := [], [], {}, {};
      freed, freedNodes := {}, {};
    }

    ghost predicate Buffers() {
      && responseBuf.Length == BuffSize(sargs.maxSize) && responseBodyBuf.Length == sargs.maxSize + 3
      && responseBuf != responseBodyBuf
    }

    /** A live client is registered under its descriptor and points to a live node, if any. */
    ghost predicate ClientLinked(c: Client)
      reads this`registry, this`pool, c`fd, c`tnidx, c`owner, c`live, pool`cli
    {
      && c.live && c.owner == this && c.fd in registry && registry[c.fd] == c
      && (c.tnidx != null ==> c.tnidx in pool && c.tnidx.cli == c)
    }

    /** A live node belongs to a live client, which points back to it. */
    ghost predicate NodeLinked(n: TimerNode<Client>)
      reads this`clients, n`live, n`cli, clients`tnidx
    {
      n.live && n.cli in clients && n.cli.tnidx == n
    }

    ghost predicate Registered()
      reads this`registry, this`clients, this`pool, clients`fd, clients`tnidx, clients`owner, clients`live, pool`cli
    {
      && (forall fd :: fd in registry ==> registry[fd] in clients && registry[fd].fd == fd)
      && (forall c :: c in clients ==> ClientLinked(c))
    }

    /** The k-th node of a list belongs to the client with the k-th descriptor. */
    ghost predicate Slots(q: seq<int>, nodes: seq<TimerNode<Client>>)
      reads this`registry, nodes`cli
    {
      |q| == |nodes| && forall i :: 0 <= i < |q| ==> q[i] in registry && nodes[i].cli == registry[q[i]]
    }

    /** Every list node is live, and no node is in both lists. */
    ghost predicate Lists()
      reads this`current, this`backup, this`pool, current, backup, pool
    {
      && current != backup
      && current.repr <= pool && backup.repr <= pool && current.repr !! backup.repr
      && current.Valid() && backup.Valid()
    }

    /** A node is in one of the two lists, or is the one just popped. */
    ghost predicate Placed(n: TimerNode<Client>, x: TimerNode?<Client>)
      reads this`current, this`backup, current, backup
    {
      n in current.repr || n in backup.repr || n == x
    }

    /** The pointer structure between two calls; x is the node that the timer pass has popped, if any. */
    ghost predicate Linked(x: TimerNode?<Client>)
      reads this, current, backup, pool
      reads clients`fd, clients`tnidx, clients`owner, clients`live
    {
      && Registered() && Lists()
      && Slots(queue, current.nodes) && Slots(kept, backup.nodes)
      && (forall n :: n in pool ==> NodeLinked(n) && Placed(n, x))
      && (x != null ==> x in pool && x.owner == null && x.prev == null && x.next == null)
    }

    /** All clients as values. */
    ghost function Table(): map<int, Spec.Client>
      requires Registered()
      reads this, clients, pool
    {
      map fd | fd in registry :: assert ClientLinked(registry[fd]); registry[fd].View()
    }

    ghost function Abs(): Spec.Board
      requires Registered()
      reads this, clients, pool
    {
      Spec.Board(Table(), queue, currentConn)
    }

    /** Nothing that has been freed is in use or has been written to since. */
    ghost predicate Graves()
      reads this`freed, this`freedNodes, this`pool, this`clients, freed, freedNodes
    {
      && freed !! clients && freedNodes !! pool
      && (forall c :: c in freed ==> c.Dead()) && (forall n :: n in freedNodes ==> n.Dead())
    }

    /** Between events: no popped node, the backup list is empty, and what is freed is left alone. */
    ghost predicate Valid()
      reads this, current, backup, pool, clients, freed, freedNodes
    {
      Buffers() && Linked(null) && backup.nodes == [] && Graves()
    }

    lemma QueueIsDistinct(x: TimerNode?<Client>)
      requires Linked(x)
      ensures Distinct(queue) && Distinct(kept)
    {
      forall i, j | 0 <= i < j < |queue| ensures queue[i] != queue[j] {
        assert NodeLinked(current.nodes[i]) && NodeLinked(current.nodes[j]);
      }
      forall i, j | 0 <= i < j < |kept| ensures kept[i] != kept[j] {
        assert NodeLinked(backup.nodes[i]) && NodeLinked(backup.nodes[j]);
      }
    }

    /** A client is in the queue exactly if its node is in the current list. */
    lemma QueueHoldsNodes(cli: Client, x: TimerNode?<Client>)
      requires Linked(x) && cli in clients
      ensures cli.tnidx != null && cli.tnidx in current.repr <==> cli.fd in queue
      ensures forall k :: 0 <= k < |queue| ==> (queue[k] == cli.fd <==> current.nodes[k] == cli.tnidx)
    {
      assert ClientLinked(cli);
      forall k | 0 <= k < |queue| ensures queue[k] == cli.fd <==> current.nodes[k] == cli.tnidx {
        assert NodeLinked(current.nodes[k]);
      }
    }

    lemma SlotsWithout(q: seq<int>, nodes: seq<TimerNode<Client>>, k: nat)
      requires Slots(q, nodes) && k < |q|
      ensures Slots(q[..k] + q[k + 1..], nodes[..k] + nodes[k + 1..])
    {
    }

    /** The list the current one becomes when a client's node leaves it. */
    lemma QueueWithout(cli: Client, x: TimerNode?<Client>) returns (rest: seq<TimerNode<Client>>)
      requires Linked(x) && cli in clients
      ensures Slots(Spec.Without(queue, cli.fd), rest)
      ensures cli.tnidx !in current.repr ==> rest == current.nodes
      ensures forall k :: 0 <= k < |current.nodes| && current.nodes[k] == cli.tnidx ==>
                            rest == current.nodes[..k] + current.nodes[k + 1..]
    {
      hide TimerMgr.Valid;
      QueueIsDistinct(x);
      QueueHoldsNodes(cli, x);
      current.Owns();
      rest := current.nodes;
      if cli.tnidx != null && cli.tnidx in current.repr {
        var k :| 0 <= k < |current.nodes| && current.nodes[k] == cli.tnidx;
        WithoutAt(queue, k);
        SlotsWithout(queue, current.nodes, k);
        rest := current.nodes[..k] + current.nodes[k + 1..];
      }
    }

    /** The first half of destroying a client: its node leaves the list that owns it and is freed. */
    method DropNode(cli: Client, ghost x: TimerNode?<Client>)
      requires Linked(x) && cli in clients && (x == null || x == cli.tnidx)
      requires cli.tnidx != null ==> cli.tnidx !in backup.repr
      modifies current, cli.tnidx, current.repr`prev, current.repr`next
      ensures Lists() && backup.repr == old(backup.repr) && cli.tnidx !in current.repr
      ensures current.repr == old(current.repr) - {cli.tnidx}
      ensures Slots(Spec.Without(queue, cli.fd), current.nodes)
      ensures cli.tnidx != null ==> cli.tnidx.Dead()
    {
      hide TimerMgr.Valid;
      ghost var node := cli.tnidx;
      ghost var rest := QueueWithout(cli, x);
      current.Owns();
      backup.Owns();
      assert ClientLinked(cli);
      assert node != null ==> NodeLinked(node) && Placed(node, x);
      current.Delete(cli.tnidx);
      assert current.nodes == rest;
    }

    /** Between the two halves of destroying a client: its node is gone, everything else is in order. */
    ghost predicate Half(cli: Client, node: TimerNode?<Client>)
      reads this, current, backup, pool
      reads clients`fd, clients`tnidx, clients`owner, clients`live
    {
      && cli in clients && cli.live && cli.fd in registry && registry[cli.fd] == cli
      && (forall fd :: fd in registry ==> registry[fd] in clients && registry[fd].fd == fd)
      && (forall c :: c in clients && c != cli ==> ClientLinked(c) && (c.tnidx == null || c.tnidx != node))
      && Lists() && node !in current.repr && node !in backup.repr
      && Slots(Spec.Without(queue, cli.fd), current.nodes) && Slots(kept, backup.nodes)
      && (forall n :: n in pool && n != node ==> NodeLinked(n) && n.cli != cli && Placed(n, null))
    }

    /** The client leaves the table and the count. */
    method Unregister(cli: Client, ghost node: TimerNode?<Client>)
      requires Half(cli, node)
      modifies this`currentConn, this`queue, this`pool, this`clients, this`registry
      ensures Linked(null)
      ensures registry == old(registry) - {cli.fd} && clients == old(clients) - {cli} && pool == old(pool) - {node}
      ensures queue == Spec.Without(old(queue), cli.fd) && currentConn == old(currentConn) - 1
    {
      hide TimerMgr.Valid, Spec.Without, Client.View;
      HalfLists(cli, node);
      currentConn := currentConn - 1;
      queue := Spec.Without(queue, cli.fd);
      pool := pool - {node};
      clients := clients - {cli};
      registry := registry - {cli.fd};
      assert Registered() by {
        forall c | c in clients ensures ClientLinked(c) {
          assert old(ClientLinked(c));
        }
      }
      assert forall n :: n in pool ==> NodeLinked(n) && Placed(n, null) by {
        forall n | n in pool ensures NodeLinked(n) && Placed(n, null) {
          assert old(NodeLinked(n)) && old(Placed(n, null));
        }
      }
    }

    /** Both lists without the client that leaves. */
    lemma HalfLists(cli: Client, node: TimerNode?<Client>)
      requires Half(cli, node)
      ensures current.repr <= pool - {node} && backup.repr <= pool - {node}
      ensures forall i :: 0 <= i < |kept| ==> kept[i] != cli.fd
      ensures cli.fd !in Spec.Without(queue, cli.fd)
    {
      hide TimerMgr.Valid;
      backup.Owns();
      forall i | 0 <= i < |kept| ensures kept[i] != cli.fd {
        assert NodeLinked(backup.nodes[i]);
      }
    }

    /** The second half of destroying a client: it leaves the table and the count, and is freed. */
    method DropClient(cli: Client, ghost node: TimerNode?<Client>)
      requires Half(cli, node)
      modifies this, cli
      ensures Linked(null) && cli.Dead() && freed == old(freed) + {cli}
      ensures freedNodes == old(freedNodes) + (if node == null then {} else {node})
      ensures registry == old(registry) - {old(cli.fd)} && clients == old(clients) - {cli} && pool == old(pool) - {node}
      ensures queue == Spec.Without(old(queue), old(cli.fd)) && kept == old(kept)
      ensures current == old(current) && backup == old(backup) && currentConn == old(currentConn) - 1
    {
      hide Spec.Without, Registered, Lists, Slots, NodeLinked, Placed, ClientLinked;
      Unregister(cli, node);
      freed, freedNodes := freed + {cli}, freedNodes + (if node == null then {} else {node});
      cli.Free();
    }

    /** The client has been freed, its node with it, and neither written to since; nothing else has been freed. */
    twostate predicate Buried(cli: Client)
      reads this`freed, this`freedNodes, this`pool, cli, freedNodes
    {
      && freed == old(freed) + {cli} && cli.Dead()
      && freedNodes == old(freedNodes) + (old(pool) - pool)
      && (forall n :: n in freedNodes && n !in old(freedNodes) ==> n.Dead())
    }

    /** Every client there was, and every one made, is in use or freed, and every node; what is freed stays freed. */
    twostate predicate Conserved(new made: set<Client>)
      reads this`freed, this`freedNodes, this`pool, this`clients
    {
      && clients + freed == old(clients) + old(freed) + made && old(pool) + old(freedNodes) <= pool + freedNodes
      && old(freed) <= freed && old(freedNodes) <= freedNodes
    }

    lemma FreedAreApart()
      requires Valid()
      ensures freed !! clients && freedNodes !! pool
    {
    }

    /** The number of clients there ever were. */
    ghost function Made(): nat
      reads this`clients, this`freed
    {
      |clients + freed|
    }

    /** The state after a client has been destroyed, against the one before. */
    twostate predicate Gone(cli: Client, fd: int)
      reads this, clients, pool, cli, freedNodes
    {
      && Buried(cli)
      && registry == old(registry) - {fd} && clients == old(clients) - {cli} && pool <= old(pool)
      && (forall c :: c in clients ==> (c.tnidx != null ==> c.tnidx in pool) && c.View() == old(c.View()))
      && queue == Spec.Without(old(queue), fd) && kept == old(kept)
      && currentConn == old(currentConn) - 1 && current == old(current) && backup == old(backup)
    }

    /**
     * Destroys a live client: its node is deleted from the list that owns it, or freed if it is the
     * popped node x; then the client is freed and its descriptor closed.
     */
    method DestroyClient(cli: Client, ghost x: TimerNode?<Client>)
      requires Linked(x) && cli in clients && (x == null || x == cli.tnidx)
      requires cli.tnidx != null ==> cli.tnidx !in backup.repr
      modifies this, current, pool, cli
      ensures Linked(null) && Gone(cli, old(cli.fd))
      ensures backup.repr == old(backup.repr)
    {
      hide TimerMgr.Valid, Spec.Without;
      backup.Owns();
      ghost var node := cli.tnidx;
      assert ClientLinked(cli);
      assert node != null ==> NodeLinked(node);
      DropNode(cli, x);
      assert Half(cli, node) by {
        forall c | c in clients && c != cli ensures ClientLinked(c) && (c.tnidx == null || c.tnidx != node) {
          assert old(ClientLinked(c));
        }
        forall n | n in pool && n != node ensures NodeLinked(n) && n.cli != cli && Placed(n, null) {
          assert old(NodeLinked(n)) && old(Placed(n, x));
        }
      }
      DropClient(cli, node);
      forall c | c in clients ensures c.View() == old(c.View()) {
        assert old(ClientLinked(c));
      }
    }

    // ----- sending

    /** Nothing changed but the value of one client. */
    twostate predicate OnlyValueOf(cli: Client)
      reads this, current, backup, pool, clients, cli
    {
      && unchanged(this) && unchanged(current) && unchanged(pool)
      && (forall c :: c in clients && c != cli ==> unchanged(c))
      && cli.fd == old(cli.fd) && cli.tnidx == old(cli.tnidx)
      && cli.owner == old(cli.owner) && cli.live == old(cli.live)
    }

    /** What a handler may rely on when it writes to a client. */
    ghost predicate CanSend(cli: Client, x: TimerNode?<Client>)
      reads this, current, backup, pool
      reads clients`fd, clients`tnidx, clients`owner, clients`live, cli`tnidx
    {
      && Buffers() && Linked(x) && cli in clients && (x == null || x == cli.tnidx)
      && (cli.tnidx != null ==> cli.tnidx !in backup.repr)
    }

    method HttpError(cli: Client, ghost x: TimerNode?<Client>)
      requires CanSend(cli, x)
      modifies this, current, pool, cli
      ensures Linked(null) && Gone(cli, old(cli.fd))
      ensures backup.repr == old(backup.repr)
    {
      DestroyClient(cli, x);
    }

    /**
     * fevbuff_write: either the first len bytes of the response buffer go out, or the error callback
     * has destroyed the client by the time it returns.
     */
    method FevbuffWrite(cli: Client, len: Int32, ok: bool, ghost x: TimerNode?<Client>) returns (ret: Int32)
      requires CanSend(cli, x) && 0 <= len <= responseBuf.Length
      modifies this, current, pool, cli
      ensures ok ==> ret == len && OnlyValueOf(cli)
      ensures ok ==> cli.View() == old(cli.View()).(log := old(cli.log).(out := old(cli.log.out) + responseBuf[..len]))
      ensures !ok ==> ret == -1 && Linked(null) && Gone(cli, old(cli.fd))
      ensures !ok ==> backup.repr == old(backup.repr)
    {
      if ok {
        cli.log := cli.log.(out := cli.log.out + responseBuf[..len]);
        ret := len;
      } else {
        HttpError(cli, x);
        ret := -1;
      }
    }

    /** Fills the response buffer with a whole Content-Length response of the given size. */
    method FillContent(size: nat) returns (totalLen: Int32)
      requires Buffers() && size <= sargs.maxSize
      modifies responseBuf, responseBodyBuf
      ensures size <= MAX_CONTENT ==>
                0 <= totalLen <= responseBuf.Length && responseBuf[..totalLen] == ContentWire(size)
      ensures size > MAX_CONTENT ==> totalLen == -1
    {
      hide ContentWire, ContentLines, Head, BuffSize;
      BufferHolds(sargs.maxSize);
      var _ := CreateResponse(responseBodyBuf, responseBuf.Length, size);
      var text := Head(ContentLines(size)) + CString(responseBodyBuf[..]) + CRLF;
      BodyIsRead(responseBodyBuf[..], size);
      ContentNeverTruncated(size, sargs.maxSize);
      ContentLengthIsInt(size);
      totalLen := Snprintf(responseBuf, responseBuf.Length, text);
    }

    /** The whole response is in the response buffer, and the client counts it as sent. */
    method EmitContent(cli: Client, draw: nat) returns (totalLen: Int32)
      requires Buffers() && sargs.maxSize <= MAX_CONTENT
      modifies cli`responseComplete, cli`log, responseBuf, responseBodyBuf
      ensures 0 <= totalLen <= responseBuf.Length
      ensures cli.View() == Spec.SendContent(sargs, old(cli.View()), draw).(log := cli.log)
      ensures cli.log == Spec.SendContent(sargs, old(cli.View()), draw).log.(out := old(cli.log.out))
      ensures Spec.SendContent(sargs, old(cli.View()), draw).log.out == old(cli.log.out) + responseBuf[..totalLen]
    {
      hide ContentWire, BuffSize;
      var size: nat := Spec.InRange(sargs.minSize, sargs.maxSize, draw);
      totalLen := FillContent(size);
      cli.responseComplete := cli.responseComplete + 1;
      cli.log := cli.log.(done := cli.log.done + [ContentOf(size)]);
    }

    /** Builds one Content-Length response and writes it. */
    method SendHttpResponse(cli: Client, draw: nat, ok: bool, ghost x: TimerNode?<Client>) returns (ret: Int32)
      requires CanSend(cli, x) && sargs.maxSize <= MAX_CONTENT
      modifies this, current, pool, cli, responseBuf, responseBodyBuf
      ensures ok ==> ret >= 0 && OnlyValueOf(cli) && cli.View() == Spec.SendContent(sargs, old(cli.View()), draw)
      ensures !ok ==> ret < 0 && Linked(null) && Gone(cli, old(cli.fd))
      ensures !ok ==> backup.repr == old(backup.repr)
    {
      hide Spec.SendContent, BuffSize, Linked, Spec.Without;
      var totalLen := EmitContent(cli, draw);
      ret := FevbuffWrite(cli, totalLen, ok, x);
    }

    /** Fills the response buffer with the next piece of a chunked response: the header once, then a chunk. */
    method FillChunk(first: bool, datasize: nat) returns (offset: Int32)
      requires Buffers() && PieceFits(sargs, first, datasize)
      modifies responseBuf
      ensures 0 <= offset <= responseBuf.Length && responseBuf[..offset] == Piece(first, datasize)
    {
      hide Head, ChunkLines, ChunkWire, BuffSize;
      offset := 0;
      if first {
        Memcpy(responseBuf, 0, Head(ChunkLines()));
        offset := |Head(ChunkLines())|;
        assert responseBuf[..offset] == Head(ChunkLines());
      }
      if datasize == 0 {
        Memcpy(responseBuf, offset, LAST_CHUNK);
        offset := offset + |LAST_CHUNK|;
      } else {
        var len := CreateChunkResponse(responseBuf, offset, datasize);
        offset := offset + len;
      }
    }

    /** The status update of the emitter: a block sent, or the response complete. */
    method AdvanceChunk(cli: Client, datasize: nat)
      requires datasize == Spec.NextBlock(cli.View())
      modifies cli`responseComplete, cli`chunkBlockNum, cli`lastDataSize, cli`log
      ensures cli.View() == Spec.SendChunk(old(cli.View())).(log := cli.log)
      ensures cli.log == Spec.SendChunk(old(cli.View())).log.(out := old(cli.log.out))
    {
      hide ChunkWire, ChunkLines, Head;
      if cli.lastDataSize == 0 {
        cli.responseComplete := cli.responseComplete + 1;
        cli.chunkBlockNum := 0;
        cli.log := cli.log.(done := cli.log.done + [ChunksOf(cli.log.blocks)], blocks := []);
      } else {
        cli.lastDataSize := cli.lastDataSize - datasize;
        cli.chunkBlockNum := cli.chunkBlockNum + 1;
        cli.log := cli.log.(blocks := cli.log.blocks + [datasize]);
      }
    }

    /** The next piece is in the response buffer, and the client's status is past it. */
    method EmitChunk(cli: Client) returns (offset: Int32)
      requires Buffers() && (cli.lastDataSize > 0 ==> cli.chunkSize > 0)
      requires PieceFits(sargs, cli.chunkBlockNum == 0, Spec.NextBlock(cli.View()))
      modifies cli`responseComplete, cli`chunkBlockNum, cli`lastDataSize, cli`log, responseBuf
      ensures 0 <= offset <= responseBuf.Length
      ensures cli.View() == Spec.SendChunk(old(cli.View())).(log := cli.log)
      ensures cli.log == Spec.SendChunk(old(cli.View())).log.(out := old(cli.log.out))
      ensures Spec.SendChunk(old(cli.View())).log.out == old(cli.log.out) + responseBuf[..offset]
    {
      hide ChunkWire, ChunkLines, Head, BuffSize, PieceFits;
      var datasize: nat := if cli.chunkSize < cli.lastDataSize then cli.chunkSize else cli.lastDataSize;
      offset := FillChunk(cli.chunkBlockNum == 0, datasize);
      AdvanceChunk(cli, datasize);
    }

    /** One call of the chunk emitter: header on the first block, a data chunk or the last chunk. */
    method SendHttpChunkedResponse(cli: Client, ok: bool, ghost x: TimerNode?<Client>) returns (ret: Int32)
      requires CanSend(cli, x) && (cli.lastDataSize > 0 ==> cli.chunkSize > 0)
      requires PieceFits(sargs, cli.chunkBlockNum == 0, Spec.NextBlock(cli.View()))
      modifies this, current, pool, cli, responseBuf, responseBodyBuf
      ensures ok ==> ret >= 0 && OnlyValueOf(cli) && cli.View() == Spec.SendChunk(old(cli.View()))
      ensures !ok ==> ret < 0 && Linked(null) && Gone(cli, old(cli.fd))
      ensures !ok ==> backup.repr == old(backup.repr)
    {
      hide Spec.SendChunk, BuffSize, PieceFits, Linked, Spec.Without;
      var offset := EmitChunk(cli);
      ret := FevbuffWrite(cli, offset, ok, x);
    }

    // ----- the timer pass

    /** timer_node_push on the backup list, which no client's value notices. */
    method PushBackup(node: TimerNode<Client>)
      requires backup.Valid() && node.live && node.owner == null && node.prev == null && node.next == null
      modifies backup, node`prev, node`owner, backup.repr`next
      ensures backup.Valid() && backup.nodes == old(backup.nodes) + [node] && backup.repr == old(backup.repr) + {node}
      ensures forall c :: c in clients ==> c.View() == old(c.View())
    {
      hide TimerMgr.Valid;
      var _ := backup.Push(node);
    }

    /** The popped node goes to the end of the backup list. */
    method KeepNode(node: TimerNode<Client>)
      requires Linked(node)
      modifies this`kept, backup, node`prev, node`owner, backup.repr`next
      ensures Linked(null) && kept == old(kept) + [node.cli.fd]
      ensures forall c :: c in clients ==> c.View() == old(c.View())
    {
      hide TimerMgr.Valid, Client.View;
      current.Owns();
      backup.Owns();
      assert NodeLinked(node) && ClientLinked(node.cli);
      assert node !in current.repr && node !in backup.repr;
      PushBackup(node);
      kept := kept + [node.cli.fd];
      assert Lists() && Registered();
      assert Slots(queue, current.nodes) && Slots(kept, backup.nodes);
    }

    /** What handling one popped node does to the objects: the client is gone, or has a new value and is kept. */
    twostate predicate Handled(cli: Client, fd: int, new r: Option<Spec.Client>)
      reads this, clients, pool, cli, freedNodes
    {
      match r
      case None => Gone(cli, fd)
      case Some(v) =>
        && registry == old(registry) && clients == old(clients) && pool == old(pool)
        && freed == old(freed) && freedNodes == old(freedNodes)
        && (forall c :: c in clients ==> (c.tnidx != null ==> c.tnidx in pool)
                                         && c.View() == if c == cli then v else old(c.View()))
        && queue == old(queue) && kept == old(kept) + [fd]
        && currentConn == old(currentConn) && current == old(current) && backup == old(backup)
    }

    /** Writes the owed response, or its next block. */
    method SendOwed(cli: Client, draw: nat, ok: bool, ghost x: TimerNode?<Client>) returns (ret: Int32)
      requires CanSend(cli, x) && ResponsesFit(sargs)
      requires ProtocolOk(sargs, cli.View()) && cli.responseComplete < cli.requestComplete
      modifies this, current, pool, cli, responseBuf, responseBodyBuf
      ensures ok ==> ret >= 0 && OnlyValueOf(cli) && cli.View() == Spec.Send(sargs, old(cli.View()), draw)
      ensures !ok ==> ret < 0 && Linked(null) && Gone(cli, old(cli.fd))
      ensures !ok ==> backup.repr == old(backup.repr)
    {
      hide Linked, Gone, Spec.SendChunk, Spec.SendContent, BuffSize, PieceFits, ChunksFit, Chunks;
      if !cli.isChunked {
        ret := SendHttpResponse(cli, draw, ok, x);
      } else {
        EmitterStaysInBuffer(sargs, cli.View());
        PendingChunkSize(sargs, cli.View());
        ret := SendHttpChunkedResponse(cli, ok, x);
      }
    }

    lemma NodesAreInPool(x: TimerNode?<Client>)
      requires Linked(x)
      ensures forall c :: c in clients ==> (c.tnidx != null ==> c.tnidx in pool)
      ensures current.repr <= pool && backup.repr <= pool && current != backup
      ensures backup.nodes == [] <==> backup.repr == {}
    {
      backup.Owns();
      assert forall c :: c in clients ==> ClientLinked(c);
    }

    /** The response is due: send it or its next block, and keep the node unless the write failed. */
    method SendOnTick(node: TimerNode<Client>, inp: Spec.TimerInput)
      requires Buffers() && Linked(node) && ResponsesFit(sargs) && node !in backup.repr
      requires node.cli in clients && node.cli.tnidx == node && ProtocolOk(sargs, node.cli.View())
      requires node.cli.responseComplete < node.cli.requestComplete
      modifies this, current, backup, pool, node.cli, responseBuf, responseBodyBuf
      ensures Linked(null)
      ensures Handled(old(node.cli), old(node.cli.fd),
                      if inp.writeOk then Some(Spec.Send(sargs, old(node.cli.View()), inp.size)) else None)
    {
      hide BuffSize, ResponsesFit, Linked, Gone, Spec.Send, ProtocolOk;
      var cli := node.cli;
      var ret := SendOwed(cli, inp.size, inp.writeOk, node);
      if ret < 0 { return; }
      NodesAreInPool(node);
      assert forall c :: c in clients && c != cli ==> c.View() == old(c.View());
      KeepNode(node);
    }

    /** One round of the timer loop: the node has been popped, and its client is looked at once. */
    method HandleNode(node: TimerNode<Client>, now: int, inp: Spec.TimerInput)
      requires Buffers() && Linked(node) && ResponsesFit(sargs) && ClientOk(sargs, node.cli.View())
      modifies this, current, backup, pool, node.cli, responseBuf, responseBodyBuf
      ensures Linked(null)
      ensures Handled(old(node.cli), old(node.cli.fd), Spec.OnTimer(sargs, old(node.cli.View()), now, inp))
    {
      hide BuffSize, ResponsesFit, TimerMgr.Valid, StreamOk, ScanOk, ProtocolOk, Spec.Send, Spec.Without, Buried;
      var cli := node.cli;
      assert NodeLinked(node) && ClientLinked(cli);
      backup.Owns();
      var diff := Spec.TruncDiv(now - cli.lastActive, 1000);
      if diff >= node.timeout {
        if cli.responseComplete < cli.requestComplete {
          SendOnTick(node, inp);
        } else if diff >= sargs.timeout {
          DestroyClient(cli, node);
        } else {
          KeepNode(node);
        }
      } else {
        KeepNode(node);
      }
    }

    /** timer_node_pop on the current list, which no client's value notices. */
    method PopCurrent() returns (node: TimerNode?<Client>)
      requires current.Valid() && |queue| == |current.nodes|
      modifies this`queue, current, current.repr`prev, current.repr`next, current.repr`owner
      ensures current.Valid()
      ensures old(current.nodes) == [] ==> node == null && current.nodes == [] && current.repr == old(current.repr)
      ensures old(current.nodes) != [] ==> node == old(current.nodes)[0] && current.nodes == old(current.nodes)[1..]
                                           && current.repr == old(current.repr) - {node}
      ensures node != null ==> node.prev == null && node.next == null && node.owner == null
      ensures queue == if node == null then old(queue) else old(queue)[1..]
      ensures forall c :: c in clients ==> c.View() == old(c.View())
    {
      hide TimerMgr.Valid;
      node := current.Pop();
      queue := if node == null then queue else queue[1..];
    }

    lemma HeadOfQueue()
      requires Linked(null)
      ensures |queue| == |current.nodes|
      ensures current.nodes != [] ==> NodeLinked(current.nodes[0]) && current.nodes[0] in pool
                                      && queue == [current.nodes[0].cli.fd] + queue[1..]
                                      && Slots(queue[1..], current.nodes[1..])
    {
      hide TimerMgr.Valid;
      current.Owns();
      if current.nodes != [] {
        assert NodeLinked(current.nodes[0]) && ClientLinked(current.nodes[0].cli);
        assert registry[queue[0]] == current.nodes[0].cli;
        assert queue[0] == current.nodes[0].cli.fd;
        assert queue == [queue[0]] + queue[1..];
      }
    }

    /** Pops the next node of the current list; queue loses its head. */
    method TakeNode() returns (node: TimerNode?<Client>)
      requires Linked(null)
      modifies this`queue, current, current.repr`prev, current.repr`next, current.repr`owner
      ensures Linked(node)
      ensures node == null ==> old(queue) == [] == queue
      ensures node != null ==> old(queue) == [node.cli.fd] + queue
      ensures forall c :: c in clients ==> c.View() == old(c.View())
    {
      hide TimerMgr.Valid, Client.View, Slots;
      current.Owns();
      backup.Owns();
      HeadOfQueue();
      node := PopCurrent();
    }

    /** The descriptors still to be looked at: the popped node's, then the current list's. */
    ghost function Todo(x: TimerNode?<Client>): seq<int>
      requires x != null ==> x.cli in clients
      reads this, x, clients`fd
    {
      (if x == null then [] else [x.cli.fd]) + queue
    }

    /** What the rest of the pass will make of the present state. */
    ghost function Pass(x: TimerNode?<Client>, now: int, env: int -> Spec.TimerInput): Spec.Board
      requires Registered() && (x != null ==> x.cli in clients)
      reads this, clients, pool, x
    {
      Spec.Drain(sargs, Table(), currentConn, Todo(x), kept, now, env)
    }

    ghost predicate AllOk()
      requires Registered()
      reads this, clients, pool
    {
      forall fd :: fd in Table() ==> ClientOk(sargs, Table()[fd])
    }

    lemma PoppedIsNotQueued(x: TimerNode<Client>)
      requires Linked(x) && x.cli in clients
      ensures x.cli.tnidx == x && x.cli.fd !in queue
    {
      hide TimerMgr.Valid;
      current.Owns();
      assert NodeLinked(x);
      QueueHoldsNodes(x.cli, x);
    }

    /** Handling a node frees at most its client and the node, and touches nothing freed. */
    method HandleCounted(node: TimerNode<Client>, now: int, inp: Spec.TimerInput)
      requires Buffers() && Linked(node) && ResponsesFit(sargs) && ClientOk(sargs, node.cli.View()) && Graves()
      requires node.cli in clients
      modifies this, current, backup, pool, node.cli, responseBuf, responseBodyBuf
      ensures Linked(null) && Graves() && Conserved({})
      ensures Handled(old(node.cli), old(node.cli.fd), Spec.OnTimer(sargs, old(node.cli.View()), now, inp))
    {
      hide BuffSize, ResponsesFit, Linked, ClientOk, Spec.OnTimer, Spec.Without;
      hide Client.View, Client.Dead, TimerNode.Dead;
      HandleNode(node, now, inp);
    }

    /** Handling a node, seen as a change of the table of client values. */
    method HandleInTable(node: TimerNode<Client>, now: int, inp: Spec.TimerInput)
      requires Buffers() && Linked(node) && ResponsesFit(sargs) && node.cli in clients && Graves()
      requires ClientOk(sargs, node.cli.View())
      modifies this, current, backup, pool, node.cli, responseBuf, responseBodyBuf
      ensures Linked(null)
      ensures var fd, r := old(node.cli.fd), Spec.OnTimer(sargs, old(node.cli.View()), now, inp);
              && Table() == (if r.Some? then old(Table())[fd := r.value] else old(Table()) - {fd})
              && kept == (if r.Some? then old(kept) + [fd] else old(kept))
              && currentConn == (if r.Some? then old(currentConn) else old(currentConn) - 1)
      ensures queue == old(queue)
      ensures clients <= old(clients) && pool <= old(pool) && current == old(current) && backup == old(backup)
      ensures Graves() && Conserved({})
    {
      hide BuffSize, ResponsesFit, TimerMgr.Valid, ClientOk, Spec.OnTimer, Client.View, Lists, Slots, Placed, Buried;
      hide Graves, Conserved;
      var cli := node.cli;
      ghost var fd := cli.fd;
      assert ClientLinked(cli);
      PoppedIsNotQueued(node);
      HandleCounted(node, now, inp);
      assert forall f :: f in registry ==> registry[f] in clients && registry[f] == old(registry)[f];
      assert forall f :: f in registry && f != fd ==> registry[f] != cli;
    }

    /** Popping a node, seen in the table of client values. */
    method TakeInTable() returns (node: TimerNode?<Client>)
      requires Linked(null) && Graves()
      modifies this`queue, current, current.repr`prev, current.repr`next, current.repr`owner
      ensures Graves()
      ensures Linked(node) && Registered() && (node != null ==> node.cli in clients && node.cli.tnidx == node)
      ensures node == null ==> old(queue) == [] == queue
      ensures node != null ==> old(queue) == [node.cli.fd] + queue
      ensures Table() == old(Table())
    {
      hide Lists, Slots, Placed, Client.View, Client.Dead, TimerNode.Dead;
      NodesAreInPool(null);
      node := TakeNode();
      assert node != null ==> NodeLinked(node);
      assert forall f :: f in registry ==> registry[f] in clients;
    }

    lemma PoppedInTable(x: TimerNode<Client>)
      requires Linked(x) && x.cli in clients
      ensures Registered() && x.cli.fd in Table() && Table()[x.cli.fd] == x.cli.View()
    {
      assert ClientLinked(x.cli);
    }

    /** Handles the popped node and pops the next one: one unfolding of the pass. */
    method Round(node: TimerNode<Client>, now: int, env: int -> Spec.TimerInput) returns (next: TimerNode?<Client>)
      requires Buffers() && Linked(node) && ResponsesFit(sargs) && node.cli in clients && AllOk() && Graves()
      modifies this, current, backup, pool, node.cli, responseBuf, responseBodyBuf
      ensures Graves() && Conserved({})
      ensures Linked(next) && Registered() && (next != null ==> next.cli in clients) && (next == null ==> queue == [])
      ensures AllOk() && Pass(next, now, env) == old(Pass(node, now, env))
      ensures |Todo(next)| == |old(Todo(node))| - 1
      ensures clients <= old(clients) && pool <= old(pool) && current == old(current) && backup == old(backup)
    {
      hide BuffSize, ResponsesFit, Linked, Registered, ClientOk, Spec.OnTimer, Client.View, Graves, Conserved;
      var fd := node.cli.fd;
      ghost var v, q := node.cli.View(), queue;
      PoppedInTable(node);
      TimerKeeps(sargs, v, now, env(fd));
      DrainOne(sargs, Table(), currentConn, fd, q, kept, now, env);
      HandleInTable(node, now, env(fd));
      NodesAreInPool(null);
      next := TakeInTable();
      assert Todo(next) == q;
    }

    /** Before the first round: the pass is the whole tick. */
    method StartPass(now: int, env: int -> Spec.TimerInput) returns (node: TimerNode?<Client>)
      requires Valid() && BoardOk(sargs, Abs())
      modifies this`queue, current, current.repr`prev, current.repr`next, current.repr`owner
      ensures Linked(node) && Registered() && (node != null ==> node.cli in clients) && (node == null ==> queue == [])
      ensures AllOk() && Pass(node, now, env) == Spec.Step(sargs, old(Abs()), Spec.Tick(now, env))
      ensures kept == [] && backup.nodes == [] && Graves()
    {
      hide BuffSize, ClientOk, Spec.Drain, Client.View, Graves;
      node := TakeInTable();
      assert Todo(node) == old(queue);
    }

    /** After the last round the drained list is empty, and the two lists change places. */
    method SwapLists()
      requires Buffers() && Linked(null) && queue == [] && Graves()
      modifies this`current, this`backup, this`queue, this`kept
      ensures Valid() && queue == old(kept) && Table() == old(Table())
      ensures current == old(backup) && backup == old(current)
    {
      hide BuffSize, TimerMgr.Valid, Client.View, Graves;
      var tmp := current;
      current := backup;
      backup := tmp;
      queue, kept := kept, queue;
    }

    /** A pass with nothing left to look at has its result. */
    lemma PassDone(now: int, env: int -> Spec.TimerInput)
      requires Registered() && queue == []
      ensures Pass(null, now, env) == Spec.Board(Table(), kept, currentConn)
    {
    }

    /**
     * The 50 ms tick. Pops every node of the current list once, pushes the survivors to the backup
     * list, and swaps the two; an empty list swaps nothing. Clients may be destroyed on the way.
     */
    method HttpOnTimer(now: int, env: int -> Spec.TimerInput)
      requires Valid() && ResponsesFit(sargs) && BoardOk(sargs, Abs())
      modifies this, current, backup, pool, clients, responseBuf, responseBodyBuf
      ensures Valid() && Abs() == Spec.Step(sargs, old(Abs()), Spec.Tick(now, env))
      ensures clients <= old(clients) && pool <= old(pool) && Conserved({})
      ensures {current, backup} == old({current, backup})
    {
      hide BuffSize, ResponsesFit, Registered, BoardOk, AllOk, Pass, Spec.Step, Slots, Placed, TimerMgr.Valid;
      hide Client.Dead, TimerNode.Dead;
      var node := StartPass(now, env);
      ghost var pass := Pass(node, now, env);
      if node == null {
        PassDone(now, env);
        return;
      }
      while node != null
        invariant Buffers() && Linked(node) && Registered() && (node != null ==> node.cli in clients)
        invariant AllOk() && Pass(node, now, env) == pass && (node == null ==> queue == [])
        invariant Graves() && Conserved({})
        invariant clients <= old(clients) && pool <= old(pool) && current == old(current) && backup == old(backup)
        decreases |Todo(node)|
      {
        node := Round(node, now, env);
      }
      PassDone(now, env);
      SwapLists();
    }

    // ----- http_read

    /** The request scan: from the saved offset, over the buffered bytes. */
    method FindRequest(buf: string, from: nat) returns (isFound: bool, offset: nat)
      ensures isFound ==> Spec.FirstEnd(buf, from) == Some(offset)
      ensures !isFound ==> Spec.FirstEnd(buf, from) == None && offset == Max(from, |buf| - 2)
    {
      offset := from;
      isFound := false;
      while offset < |buf| - 2
        invariant from <= offset && (from < offset ==> offset <= |buf| - 2)
        invariant Spec.FirstEnd(buf, offset) == Spec.FirstEnd(buf, from)
        decreases |buf| - offset
      {
        if buf[offset] == buf[offset + 2] && buf[offset] == '\n' {
          isFound := true;
          break;
        }
        offset := offset + 1;
      }
    }

    /** timer_node_push on the current list, which no client's value notices. */
    method PushCurrent(node: TimerNode<Client>)
      requires current.Valid() && node.live && node.owner == null && node.prev == null && node.next == null
      modifies this`queue, current, node`prev, node`owner, current.repr`next
      ensures current.Valid() && current.nodes == old(current.nodes) + [node]
      ensures current.repr == old(current.repr) + {node}
      ensures queue == old(queue) + [node.cli.fd]
      ensures forall c :: c in clients ==> c.View() == old(c.View())
    {
      hide TimerMgr.Valid;
      var _ := current.Push(node);
      queue := queue + [node.cli.fd];
    }

    /** A client that has a timer node keeps it, with a new timeout; pushing it again does nothing. */
    method RenewTimer(cli: Client, interval: int)
      requires Linked(null) && cli in clients && cli.tnidx != null && backup.nodes == []
      modifies current, current.repr
      ensures Linked(null) && cli.View() == old(cli.View()).(timer := Some(interval))
      ensures forall c :: c in clients && c != cli ==> c.View() == old(c.View())
    {
      hide TimerMgr.Valid, Slots;
      current.Owns();
      backup.Owns();
      assert forall c :: c in clients ==> ClientLinked(c);
      assert NodeLinked(cli.tnidx) && Placed(cli.tnidx, null);
      current.SetTimeout(cli.tnidx, interval);
      var _ := current.Push(cli.tnidx);
    }

    /** timer_node_create for a client without a node: the node is the client's, but in no list yet. */
    method AttachNode(cli: Client, interval: int) returns (tnode: TimerNode<Client>)
      requires Linked(null) && cli in clients && cli.tnidx == null
      modifies this`pool, cli`tnidx
      ensures Linked(tnode) && tnode.cli == cli && fresh(tnode) && pool == old(pool) + {tnode}
      ensures cli.View() == old(cli.View()).(timer := Some(interval))
      ensures forall c :: c in clients && c != cli ==> c.View() == old(c.View())
    {
      hide TimerMgr.Valid;
      tnode := new TimerNode<Client>(cli, interval);
      cli.tnidx := tnode;
      pool := pool + {tnode};
    }

    /** The new node goes to the end of the current list. */
    method JoinQueue(node: TimerNode<Client>)
      requires Linked(node)
      modifies this`queue, current, node`prev, node`owner, current.repr`next
      ensures Linked(null) && queue == old(queue) + [node.cli.fd]
      ensures forall c :: c in clients ==> c.View() == old(c.View())
    {
      hide TimerMgr.Valid, Client.View;
      current.Owns();
      backup.Owns();
      assert NodeLinked(node) && ClientLinked(node.cli);
      assert node !in current.repr && node !in backup.repr;
      PushCurrent(node);
      assert Lists() && Registered();
      assert Slots(queue, current.nodes) && Slots(kept, backup.nodes);
    }

    /** A client without a timer node gets one, at the end of the queue. */
    method NewTimer(cli: Client, interval: int) returns (tnode: TimerNode<Client>)
      requires Linked(null) && cli in clients && cli.tnidx == null
      modifies this`pool, this`queue, current, cli`tnidx, current.repr`next
      ensures Linked(null) && fresh(tnode) && pool == old(pool) + {tnode}
      ensures cli.View() == old(cli.View()).(timer := Some(interval))
      ensures forall c :: c in clients && c != cli ==> c.View() == old(c.View())
      ensures queue == old(queue) + [cli.fd]
    {
      hide Linked, Client.View;
      tnode := AttachNode(cli, interval);
      JoinQueue(tnode);
    }

    /** Counts the request, marks the client active, chooses the response and plans a chunked one. */
    method ChooseResponse(cli: Client, ghost inp: Spec.ReadInput, now: int, draws: Spec.Draws) returns (latency: int)
      requires now == inp.now && draws == inp.draws
      modifies cli`requestComplete, cli`lastActive, cli`isChunked, cli`chunkSize, cli`lastDataSize, cli`log
      ensures cli.View() == Spec.Choose(sargs, old(cli.View()), inp)
      ensures latency == Spec.LatencyFor(sargs, cli.isChunked, draws.latency)
      ensures sargs.responseType.ContentOnly? ==> !cli.isChunked
      ensures sargs.responseType.ChunkedOnly? ==> cli.isChunked
      ensures sargs.responseType.Mix? ==> (cli.isChunked <==> draws.kind % 100 < sargs.chunkRatio)
      ensures cli.isChunked ==> sargs.minChunkLatency <= latency <= sargs.maxChunkLatency
      ensures !cli.isChunked ==> sargs.minLatency <= latency <= sargs.maxLatency
    {
      hide Spec.InRange, Spec.IsChunked;
      KindIs(sargs, draws.kind);
      cli.requestComplete := cli.requestComplete + 1;
      cli.lastActive := now;
      cli.isChunked := Spec.IsChunked(sargs, draws.kind);
      if !cli.isChunked {
        latency := Spec.InRange(sargs.minLatency, sargs.maxLatency, draws.latency);
      } else {
        var responseSize: nat := Spec.InRange(sargs.minChunkSize, sargs.maxChunkSize, draws.size);
        cli.lastDataSize := responseSize;
        cli.chunkSize := responseSize / sargs.chunkBlocks;
        if cli.lastDataSize != 0 && cli.chunkSize == 0 {
          cli.chunkSize := 1;
        }
        cli.log := cli.log.(plan := responseSize);
        latency := Spec.InRange(sargs.minChunkLatency, sargs.maxChunkLatency, draws.latency);
      }
    }

    /** Everything but this client's own value is as it was. */
    twostate predicate OnlyClient(cli: Client, fd: int)
      reads this, clients, cli`fd
    {
      && cli.fd == fd == old(cli.fd) && cli in clients
      && registry == old(registry) && clients == old(clients) && kept == old(kept) && currentConn == old(currentConn)
      && freed == old(freed) && freedNodes == old(freedNodes) && old(pool) <= pool
      && current == old(current) && backup == old(backup)
    }

    /** Sets the client's timer, creating its node at the end of the queue if it has none. */
    method SetTimer(cli: Client, interval: int)
      requires Linked(null) && cli in clients && backup.nodes == []
      modifies this`pool, this`queue, current, pool, cli`tnidx
      ensures Linked(null) && fresh(pool - old(pool)) && OnlyClient(cli, old(cli.fd)) && backup.nodes == []
      ensures cli.View() == old(cli.View()).(timer := Some(interval))
      ensures forall c :: c in clients && c != cli ==> c.View() == old(c.View())
      ensures queue == if old(cli.tnidx) == null then old(queue) + [cli.fd] else old(queue)
    {
      hide Linked, Client.View;
      NodesAreInPool(null);
      if cli.tnidx != null {
        RenewTimer(cli, interval);
      } else {
        var _ := NewTimer(cli, interval);
      }
    }

    /** The request's bytes are popped up to its closing newline, and the scan starts over. */
    method PopRequest(cli: Client, p: nat, ghost interval: int)
      requires p + 2 <= |cli.inbuf| && cli.tnidx != null && cli.tnidx.timeout == interval
      modifies cli`inbuf, cli`offset, cli`log
      ensures cli.View() == Spec.TakeRequest(old(cli.View()), p, interval)
    {
      cli.log := cli.log.(marks := cli.log.marks + [Max(|cli.log.recv| - |cli.inbuf|, 0) + p]);
      cli.inbuf := cli.inbuf[p + 2..];
      cli.offset := 0;
    }

    /** What answering a request does to the objects. */
    twostate predicate Answered(cli: Client, fd: int, new r: Option<Spec.Client>, joined: bool)
      reads this, clients, pool, cli, freedNodes
    {
      match r
      case None => Gone(cli, fd)
      case Some(v) =>
        && OnlyClient(cli, fd)
        && (forall c :: c in clients ==> (c.tnidx != null ==> c.tnidx in pool)
                                         && c.View() == if c == cli then v else old(c.View()))
        && queue == if joined then old(queue) + [fd] else old(queue)
    }

    /** Sets the timer and pops the request. */
    method FinishRequest(cli: Client, p: nat, interval: int)
      requires Linked(null) && backup.nodes == [] && cli in clients && p + 2 <= |cli.inbuf|
      modifies this`pool, this`queue, current, pool, cli
      ensures Linked(null) && backup.nodes == [] && fresh(pool - old(pool))
      ensures Answered(cli, old(cli.fd), Some(Spec.TakeRequest(old(cli.View()), p, interval)), old(cli.tnidx) == null)
    {
      hide Linked, Gone;
      SetTimer(cli, interval);
      PopRequest(cli, p, interval);
      NodesAreInPool(null);
    }

    /** The response is chosen and, without a latency, started; returns the timer's interval and the write's result. */
    method StartResponse(cli: Client, inp: Spec.ReadInput) returns (interval: int, ret: Int32)
      requires Buffers() && Linked(null) && backup.nodes == [] && ResponsesFit(sargs) && cli in clients
      requires cli.requestComplete == cli.responseComplete
      requires ProtocolOk(sargs, cli.View()) && StreamOk(sargs, cli.View())
      modifies this, current, pool, cli, responseBuf, responseBodyBuf
      ensures Linked(null) && backup.nodes == []
      ensures interval == Spec.Answer(sargs, old(cli.View()), inp).1
      ensures var sent := Spec.Answer(sargs, old(cli.View()), inp).0;
              match sent
              case None => ret < 0 && Gone(cli, old(cli.fd))
              case Some(v) => ret >= 0 && OnlyValueOf(cli) && cli.View() == v
    {
      hide BuffSize, ResponsesFit, Linked, Spec.Choose, Spec.Send, Spec.LatencyFor, ProtocolOk, StreamOk;
      ChooseKeeps(sargs, cli.View(), inp);
      NodesAreInPool(null);
      var latency := ChooseResponse(cli, inp, inp.now, inp.draws);
      interval, ret := latency, 0;
      if latency == 0 {
        interval := sargs.timeout;
        ret := SendOwed(cli, inp.draws.size, inp.writeOk, null);
      }
    }

    /** Everything after a request that keeps the rules has been recognised at offset p. */
    method AnswerRequest(cli: Client, p: nat, inp: Spec.ReadInput)
      requires Buffers() && Linked(null) && backup.nodes == [] && ResponsesFit(sargs) && cli in clients
      requires cli.requestComplete == cli.responseComplete && p + 2 <= |cli.inbuf|
      requires ProtocolOk(sargs, cli.View()) && StreamOk(sargs, cli.View())
      modifies this, current, pool, cli, responseBuf, responseBodyBuf
      ensures Linked(null) && backup.nodes == [] && fresh(pool - old(pool))
      ensures var (sent, interval) := Spec.Answer(sargs, old(cli.View()), inp);
              Answered(cli, old(cli.fd), if sent.None? then None else Some(Spec.TakeRequest(sent.value, p, interval)),
                       old(cli.tnidx) == null)
    {
      hide BuffSize, ResponsesFit, Linked, Spec.Answer, Spec.TakeRequest, ProtocolOk, StreamOk, Client.View;
      AnswerFrame(sargs, cli.View(), inp);
      ViewParts(cli);
      NodesAreInPool(null);
      var interval, ret := StartResponse(cli, inp);
      if ret < 0 { return; }
      ViewParts(cli);
      FinishRequest(cli, p, interval);
    }

    lemma ViewParts(cli: Client)
      ensures cli.View().inbuf == cli.inbuf && (cli.tnidx == null <==> cli.View().timer.None?)
    {
    }

    /** The bytes that arrived are buffered and scanned; without a request end the offset is saved. */
    method ScanArrival(cli: Client, ghost inp: Spec.ReadInput, data: string) returns (isFound: bool, offset: nat)
      requires inp.readOk && inp.data == data
      modifies cli`inbuf, cli`offset, cli`log
      ensures var c0 := Spec.Receive(old(cli.View()), data);
              && (isFound ==> Spec.FirstEnd(c0.inbuf, c0.offset) == Some(offset) && cli.View() == c0)
              && (!isFound ==> Spec.OnRead(sargs, old(cli.View()), inp) == Some(cli.View()))
    {
      hide Spec.OnRequest, Spec.FirstEnd;
      cli.inbuf := cli.inbuf + data;
      cli.log := cli.log.(recv := cli.log.recv + data);
      isFound, offset := false, 0;
      if |cli.inbuf| == 0 { return; }
      isFound, offset := FindRequest(cli.inbuf, cli.offset);
      if !isFound {
        cli.offset := offset;
      }
    }

    /** A request has been recognised at offset p: it is answered, or costs the connection if one is unanswered. */
    method ReadRequest(cli: Client, p: nat, inp: Spec.ReadInput)
      requires Buffers() && Linked(null) && backup.nodes == [] && ResponsesFit(sargs) && cli in clients
      requires p + 2 <= |cli.inbuf| && ProtocolOk(sargs, cli.View()) && StreamOk(sargs, cli.View())
      modifies this, current, pool, cli, responseBuf, responseBodyBuf
      ensures Linked(null) && backup.nodes == [] && fresh(pool - old(pool))
      ensures Answered(cli, old(cli.fd), Spec.OnRequest(sargs, old(cli.View()), p, inp), old(cli.tnidx) == null)
    {
      hide BuffSize, ResponsesFit, Linked, Spec.Answer, Spec.TakeRequest, ProtocolOk, StreamOk, Spec.Without, Buried;
      NodesAreInPool(null);
      if cli.requestComplete != cli.responseComplete {
        DestroyClient(cli, null);
      } else {
        AnswerRequest(cli, p, inp);
      }
    }

    /** A read event, seen as a change of one client. */
    method ReadClient(cli: Client, inp: Spec.ReadInput)
      requires Buffers() && Linked(null) && backup.nodes == [] && ResponsesFit(sargs) && cli in clients
      requires ClientOk(sargs, cli.View())
      modifies this, current, pool, cli, responseBuf, responseBodyBuf
      ensures Linked(null) && backup.nodes == [] && fresh(pool - old(pool))
      ensures var r := Spec.OnRead(sargs, old(cli.View()), inp);
              Answered(cli, old(cli.fd), r, old(cli.tnidx) == null && r.Some? && r.value.timer.Some?)
    {
      hide BuffSize, ResponsesFit, Linked, Spec.OnRequest, ProtocolOk, StreamOk, ScanOk, Spec.FirstEnd, Spec.Without;
      hide Client.View, Client.Dead, TimerNode.Dead;
      NodesAreInPool(null);
      ViewParts(cli);
      if !inp.readOk { return; }
      var isFound, offset := ScanArrival(cli, inp, inp.data);
      ViewParts(cli);
      if !isFound { return; }
      assert Spec.EndsRequest(cli.inbuf, offset);
      LedgerFrame(sargs, old(cli.View()), cli.View());
      TimerIsSet(sargs, cli.View(), offset, inp);
      ReadRequest(cli, offset, inp);
    }

    /** A read frees at most its client and the node, and touches nothing freed. */
    method ReadCounted(cli: Client, inp: Spec.ReadInput)
      requires Buffers() && Linked(null) && backup.nodes == [] && ResponsesFit(sargs) && cli in clients && Graves()
      requires ClientOk(sargs, cli.View())
      modifies this, current, pool, cli, responseBuf, responseBodyBuf
      ensures Linked(null) && backup.nodes == [] && fresh(pool - old(pool)) && Graves() && Conserved({})
      ensures var r := Spec.OnRead(sargs, old(cli.View()), inp);
              Answered(cli, old(cli.fd), r, old(cli.tnidx) == null && r.Some? && r.value.timer.Some?)
    {
      hide BuffSize, ResponsesFit, Linked, ClientOk, Spec.OnRead, Spec.Without;
      hide Client.View, Client.Dead, TimerNode.Dead;
      ReadClient(cli, inp);
    }

    lemma InTable(cli: Client)
      requires Registered() && cli in clients
      ensures cli.fd in Table() && Table()[cli.fd] == cli.View()
      ensures (cli.tnidx == null) == cli.View().timer.None?
    {
      assert ClientLinked(cli);
    }

    /** A read event, seen in the table of client values. */
    method ReadInTable(cli: Client, inp: Spec.ReadInput)
      requires Buffers() && Linked(null) && backup.nodes == [] && ResponsesFit(sargs) && cli in clients && Graves()
      requires ClientOk(sargs, cli.View())
      modifies this, current, pool, cli, responseBuf, responseBodyBuf
      ensures Linked(null) && backup.nodes == [] && clients <= old(clients) && fresh(pool - old(pool))
      ensures Graves() && Conserved({})
      ensures current == old(current) && backup == old(backup)
      ensures var fd, v, r := old(cli.fd), old(cli.View()), Spec.OnRead(sargs, old(cli.View()), inp);
              && Table() == (if r.Some? then old(Table())[fd := r.value] else old(Table()) - {fd})
              && queue == (if r.None? then Spec.Without(old(queue), fd)
                           else if v.timer.None? && r.value.timer.Some? then old(queue) + [fd] else old(queue))
              && currentConn == (if r.None? then old(currentConn) - 1 else old(currentConn))
    {
      hide BuffSize, ResponsesFit, ClientOk, Spec.OnRead, Client.View, Lists, Slots, Placed, Spec.Without, NodeLinked;
      hide Buried, Graves, Conserved;
      ghost var fd, r := cli.fd, Spec.OnRead(sargs, cli.View(), inp);
      InTable(cli);
      ReadCounted(cli, inp);
      assert forall f :: f in registry ==> registry[f] in clients && registry[f] == old(registry)[f];
      assert forall f :: f in registry && f != fd ==> registry[f] != cli;
      if r.Some? {
        assert Table() == old(Table())[fd := r.value];
      } else {
        assert Table() == old(Table()) - {fd};
      }
    }

    /** The read callback of a live client. */
    method HttpRead(cli: Client, inp: Spec.ReadInput)
      requires Valid() && ResponsesFit(sargs) && BoardOk(sargs, Abs()) && cli in clients
      modifies this, current, pool, cli, responseBuf, responseBodyBuf
      ensures Valid() && Abs() == Spec.Step(sargs, old(Abs()), Spec.Read(old(cli.fd), inp)) && Conserved({})
      ensures clients <= old(clients) && fresh(pool - old(pool)) && current == old(current) && backup == old(backup)
    {
      hide BuffSize, ResponsesFit, ClientOk, Spec.OnRead, Client.View, Lists, Slots, Placed, Registered, Spec.Without;
      InTable(cli);
      OkOnBoard(sargs, Abs(), cli.fd);
      ReadInTable(cli, inp);
    }

    /** An error frees its client and the node, and touches nothing freed. */
    method ErrorCounted(cli: Client)
      requires CanSend(cli, null) && Graves()
      modifies this, current, pool, cli
      ensures Linked(null) && Gone(cli, old(cli.fd)) && backup.repr == old(backup.repr) && Graves() && Conserved({})
      ensures cli in freed
    {
      hide BuffSize, Linked, Client.View, Client.Dead, TimerNode.Dead, Spec.Without;
      HttpError(cli, null);
    }

    /** The error callback of a live client. */
    method HttpErrorEvent(cli: Client)
      requires Valid() && cli in clients
      modifies this, current, pool, cli
      ensures Valid() && Abs() == Spec.Step(sargs, old(Abs()), Spec.Fault(old(cli.fd))) && Conserved({})
      ensures registry == old(registry) - {old(cli.fd)} && cli in freed && currentConn == old(currentConn) - 1
      ensures clients <= old(clients) && pool <= old(pool) && current == old(current) && backup == old(backup)
    {
      hide BuffSize, Client.View, Lists, Slots, Placed, Spec.Without, Buried, Graves, Conserved;
      ghost var fd := cli.fd;
      InTable(cli);
      NodesAreInPool(null);
      ErrorCounted(cli);
      NodesAreInPool(null);
      assert forall f :: f in registry ==> registry[f] in clients && registry[f] == old(registry)[f];
      assert Table() == old(Table()) - {fd};
    }

    /** A new client enters the table and the count. */
    method RegisterClient(cli: Client)
      requires Linked(null) && cli.live && cli.owner == this && cli.tnidx == null
      requires cli.fd !in registry && cli !in clients
      modifies this`currentConn, this`registry, this`clients
      ensures Linked(null) && Table() == old(Table())[cli.fd := cli.View()] && currentConn == old(currentConn) + 1
      ensures clients == old(clients) + {cli} && cli.fd in registry
    {
      hide TimerMgr.Valid, Client.View;
      currentConn := currentConn + 1;
      registry := registry[cli.fd := cli];
      clients := clients + {cli};
    }

    /** A connection is refused past the descriptor limit, closed if it gets no buffer, and otherwise a new client. */
    method HttpAccept(fd: int, now: int, buffered: bool) returns (ghost made: set<Client>)
      requires Valid() && fd !in registry
      modifies this
      ensures Valid() && Abs() == Spec.Step(sargs, old(Abs()), Spec.Accept(fd, now, buffered))
      ensures fresh(clients - old(clients)) && pool == old(pool) && current == old(current) && backup == old(backup)
      ensures Conserved(made) && fresh(made) && |made| == if fd < sargs.maxQueueLen && buffered then 1 else 0
      ensures fd in registry <==> fd < sargs.maxQueueLen && buffered
    {
      hide BuffSize, Lists, Slots, Placed, Registered, Client.View, Spec.FreshClient;
      assert fd !in Table();
      made := {};
      if fd >= sargs.maxQueueLen { return; }
      var cli := new Client(fd, now, this);
      if !buffered { return; }
      RegisterClient(cli);
      made := {cli};
    }
  }

  /**
   * The event loop: the library delivers events one at a time, reads and errors only to registered
   * clients, accepts only with a descriptor that is free. After any events the objects are in order
   * and hold exactly what the specification's run holds; every client made is in use or has been freed,
   * once, and nothing freed has been written to since.
   */
  method Serve(sargs: Spec.Config, events: seq<Spec.Event>) returns (mgr: ClientMgr)
    requires ResponsesFit(sargs)
    ensures mgr.sargs == sargs && mgr.Valid() && mgr.Abs() == Spec.Run(sargs, Spec.EMPTY_BOARD, events)
    ensures BoardOk(sargs, mgr.Abs())
    ensures mgr.Graves() && mgr.Made() == Spec.Registrations(sargs, Spec.EMPTY_BOARD, events)
  {
    hide BuffSize, ResponsesFit, Spec.Step, BoardOk, Spec.Registers, ClientMgr.Graves, ClientMgr.Made;
    hide ClientMgr.Lists, ClientMgr.Slots, ClientMgr.Registered, ClientMgr.Table;
    mgr := new ClientMgr(sargs);
    StartOk(sargs);
    ghost var result := Spec.Run(sargs, Spec.EMPTY_BOARD, events);
    ghost var made := Spec.Registrations(sargs, Spec.EMPTY_BOARD, events);
    for i := 0 to |events|
      invariant mgr.sargs == sargs && mgr.Valid() && BoardOk(sargs, mgr.Abs())
      invariant Spec.Run(sargs, mgr.Abs(), events[i..]) == result
      invariant mgr.Made() + Spec.Registrations(sargs, mgr.Abs(), events[i..]) == made
      invariant fresh(mgr) && fresh(mgr.current) && fresh(mgr.backup) && fresh(mgr.pool) && fresh(mgr.clients)
      invariant fresh(mgr.responseBuf) && fresh(mgr.responseBodyBuf)
    {
      assert events[i..][1..] == events[i + 1..];
      StepKeeps(sargs, mgr.Abs(), events[i]);
      Deliver(mgr, events[i]);
    }
  }

  /** One event: what has been freed before it is as it was, and every client made is in use or has been freed. */
  method Deliver(mgr: ClientMgr, e: Spec.Event)
    requires mgr.Valid() && ResponsesFit(mgr.sargs) && BoardOk(mgr.sargs, mgr.Abs())
    modifies mgr, mgr.current, mgr.backup, mgr.pool, mgr.clients, mgr.responseBuf, mgr.responseBodyBuf
    ensures mgr.Valid() && mgr.Abs() == Spec.Step(mgr.sargs, old(mgr.Abs()), e)
    ensures {mgr.current, mgr.backup} == old({mgr.current, mgr.backup})
    ensures fresh(mgr.pool - old(mgr.pool)) && fresh(mgr.clients - old(mgr.clients))
    ensures old(mgr.freed) <= mgr.freed && unchanged(old(mgr.freed))
    ensures old(mgr.freedNodes) <= mgr.freedNodes && unchanged(old(mgr.freedNodes))
    ensures mgr.Made() == old(mgr.Made()) + (if Spec.Registers(mgr.sargs, old(mgr.Abs()), e) then 1 else 0)
  {
    hide BuffSize, ResponsesFit, BoardOk, Spec.Step, Spec.Registers, ClientMgr.Valid;
    mgr.FreedAreApart();
    var made := Dispatch(mgr, e);
    assert mgr.clients + mgr.freed == old(mgr.clients + mgr.freed) + made && old(mgr.clients + mgr.freed) !! made;
  }

  /** What a served client has been sent reads back as its completed responses and the open one. */
  lemma ServedClientReadsBack(mgr: ClientMgr, events: seq<Spec.Event>, cli: Client)
    requires mgr.Valid() && mgr.Abs() == Spec.Run(mgr.sargs, Spec.EMPTY_BOARD, events) && cli in mgr.clients
    requires ResponsesFit(mgr.sargs)
    ensures var (bodies, tail) := ReadStream(cli.log.out);
            && |bodies| == |cli.log.done| == cli.responseComplete
            && (forall i :: 0 <= i < |bodies| ==> bodies[i] == cli.log.done[i].Body())
            && (forall i :: 0 <= i < |bodies| ==> BodyAllowed(mgr.sargs, bodies[i]))
            && (tail != "" <==> cli.chunkBlockNum > 0)
  {
    hide BuffSize, ReadStream, Spec.Run, Allowed, BodyAllowed;
    mgr.InTable(cli);
    EveryStreamReadsBack(mgr.sargs, events, cli.fd);
    assert mgr.Abs().clients[cli.fd] == cli.View();
  }

  lemma TimerIsSet(cfg: Spec.Config, c: Spec.Client, p: nat, inp: Spec.ReadInput)
    ensures var r := Spec.OnRequest(cfg, c, p, inp); r.Some? ==> r.value.timer.Some?
  {
    hide Spec.Answer;
  }

  lemma OkOnBoard(cfg: Spec.Config, b: Spec.Board, fd: int)
    requires BoardOk(cfg, b) && fd in b.clients
    ensures ClientOk(cfg, b.clients[fd])
  {
  }

  /** One event to its handler. */
  method Dispatch(mgr: ClientMgr, e: Spec.Event) returns (ghost made: set<Client>)
    requires mgr.Valid() && ResponsesFit(mgr.sargs) && BoardOk(mgr.sargs, mgr.Abs())
    modifies mgr, mgr.current, mgr.backup, mgr.pool, mgr.clients, mgr.responseBuf, mgr.responseBodyBuf
    ensures mgr.Valid() && mgr.Abs() == Spec.Step(mgr.sargs, old(mgr.Abs()), e)
    ensures {mgr.current, mgr.backup} == old({mgr.current, mgr.backup})
    ensures fresh(mgr.pool - old(mgr.pool)) && fresh(mgr.clients - old(mgr.clients))
    ensures mgr.Conserved(made) && fresh(made)
    ensures |made| == if Spec.Registers(mgr.sargs, old(mgr.Abs()), e) then 1 else 0
  {
    hide BuffSize, ResponsesFit, BoardOk, Spec.OnRead, ClientMgr.Graves;
    made := {};
    match e {
      case Accept(fd, now, buffered) =>
        if fd !in mgr.registry { made := mgr.HttpAccept(fd, now, buffered); }
      case Read(fd, inp) =>
        if fd in mgr.registry { mgr.HttpRead(mgr.registry[fd], inp); }
      case Tick(now, env) =>
        mgr.HttpOnTimer(now, env);
      case Fault(fd) =>
        if fd in mgr.registry { mgr.HttpErrorEvent(mgr.registry[fd]); }
    }
  }

  /** The pass looks at the front of its queue and goes on with the rest. */
  lemma DrainOne(cfg: Spec.Config, m: map<int, Spec.Client>, conn: int, fd: int, rest: seq<int>, kept: seq<int>,
                 now: int, env: int -> Spec.TimerInput)
    requires fd in m
    ensures Spec.Drain(cfg, m, conn, [fd] + rest, kept, now, env)
         == match Spec.OnTimer(cfg, m[fd], now, env(fd))
            case None => Spec.Drain(cfg, m - {fd}, conn - 1, rest, kept, now, env)
            case Some(c) => Spec.Drain(cfg, m[fd := c], conn, rest, kept + [fd], now, env)
  {
    hide Spec.OnTimer;
    assert ([fd] + rest)[1..] == rest;
  }

  lemma BufferHolds(maxSize: nat)
    ensures BuffSize(maxSize) >= maxSize + 3
  {
  }

  /** "%s" of the body buffer yields exactly the body, whatever the bytes behind its NUL. */
  lemma BodyIsRead(buf: string, size: nat)
    requires size + 3 <= |buf| && buf[..size + 3] == ContentBuffer(size) + "\0"
    ensures Head(ContentLines(size)) + CString(buf) + CRLF == ContentWire(size)
  {
    hide Head, ContentLines;
    assert buf == ContentBuffer(size) + "\0" + buf[size + 3..];
    CStringStopsAtNul(ContentBuffer(size), buf[size + 3..]);
  }
}
