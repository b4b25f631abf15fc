/**
 * The character device with a message buffer, a read cursor, and the two message ioctls. User memory
 * is a string or an array handed in with the call.
 */
module CharDevice {
  import opened Text

  const BUF_LEN := 80

  /** There is a NUL, so that a reader stops inside the buffer. */
  predicate Terminated(s: string) {
    '\0' in s
  }

  /** What device_write leaves of a buffer. */
  function Written(buf: string, data: string): (r: string)
    requires |buf| == BUF_LEN
    ensures |r| == BUF_LEN
  {
    var n := Min(|data|, BUF_LEN);
    data[..n] + buf[n..]
  }

  /** What IOCTL_SET_MSG writes: up to the NUL and with it, nothing for an empty message, 80 bytes at most. */
  function SetData(user: string): (r: string)
    requires Terminated(user) || BUF_LEN <= |user|
    ensures |r| <= BUF_LEN && r <= user
  {
    CStringIs(user);
    var n := |CString(user)|;
    if n == 0 then "" else user[..Min(n + 1, BUF_LEN)]
  }

  /** What successive reads of the given lengths deliver. */
  function Deliveries(content: string, lengths: seq<nat>): seq<string>
    decreases |lengths|
  {
    if lengths == [] then []
    else
      var n := Min(lengths[0], |content|);
      [content[..n]] + Deliveries(content[n..], lengths[1..])
  }

  function Joined(pieces: seq<string>): string {
    if pieces == [] then "" else pieces[0] + Joined(pieces[1..])
  }

  class Device {
    var deviceOpen: int
    const message: array<char>
    var cursor: nat

    predicate Valid()
      reads this
    {
      message.Length == BUF_LEN && cursor < BUF_LEN
    }

    /** The bytes from the cursor on. */
    ghost function Ahead(): string
      requires Valid()
      reads this, message
    {
      message[cursor..]
    }

    constructor ()
      ensures Valid() && deviceOpen == 0 && fresh(message) && message[..] == seq(BUF_LEN, _ => '\0')
    {
      deviceOpen, cursor := 0, 0;
      message := new char[BUF_LEN](_ => '\0');
    }

    /** One process at a time; opening rewinds. */
    method Open() returns (ok: bool)
      requires Valid()
      modifies this`deviceOpen, this`cursor
      ensures Valid() && ok == (old(deviceOpen) == 0)
      ensures if ok then deviceOpen == 1 && cursor == 0 else deviceOpen == old(deviceOpen) && cursor == old(cursor)
    {
      if deviceOpen != 0 { return false; }
      deviceOpen := deviceOpen + 1;
      cursor := 0;
      return true;
    }

    method Release()
      requires Valid()
      modifies this`deviceOpen
      ensures Valid() && deviceOpen == old(deviceOpen) - 1
    {
      deviceOpen := deviceOpen - 1;
    }

    /** Copies up to `length` bytes, and none past the NUL, to the user's buffer; returns how many. */
    method Read(buffer: array<char>, length: nat) returns (bytesRead: nat)
      requires Valid() && Terminated(Ahead()) && buffer != message
      requires Min(length, |CString(Ahead())|) <= buffer.Length
      modifies this`cursor, buffer
      ensures Valid() && bytesRead == Min(length, |CString(old(Ahead()))|) && cursor == old(cursor) + bytesRead
      ensures buffer[..bytesRead] == CString(old(Ahead()))[..bytesRead]
      ensures buffer[bytesRead..] == old(buffer[bytesRead..])
      ensures Terminated(Ahead()) && CString(Ahead()) == CString(old(Ahead()))[bytesRead..]
    {
      hide CString;
      ghost var ahead := Ahead();
      ghost var all := CString(ahead);
      CStringIs(ahead);
      bytesRead := 0;
      var left := length;
      while left != 0 && message[cursor] != '\0'
        invariant cursor == old(cursor) + bytesRead < BUF_LEN && left == length - bytesRead && bytesRead <= |all|
        invariant forall i :: 0 <= i < bytesRead ==> buffer[i] == all[i]
        invariant forall i :: bytesRead <= i < buffer.Length ==> buffer[i] == old(buffer[i])
        decreases left
      {
        assert message[cursor] == ahead[bytesRead];
        buffer[bytesRead] := message[cursor];
        cursor := cursor + 1;
        left := left - 1;
        bytesRead := bytesRead + 1;
      }
      assert message[cursor] == ahead[bytesRead];
      assert Ahead() == ahead[bytesRead..];
      CStringRest(ahead, bytesRead);
    }

    /** Copies at most BUF_LEN bytes from the user's buffer, adds no terminator, and rewinds. */
    method Write(user: string, length: nat) returns (written: nat)
      requires Valid() && Min(length, BUF_LEN) <= |user|
      modifies this`cursor, message
      ensures Valid() && cursor == 0 && written == Min(length, BUF_LEN)
      ensures message[..] == Written(old(message[..]), user[..written])
      ensures forall i :: 0 <= i < BUF_LEN ==> message[i] == if i < written then user[i] else old(message[i])
    {
      ghost var was := message[..];
      var i := 0;
      while i < length && i < BUF_LEN
        invariant 0 <= i <= Min(length, BUF_LEN)
        invariant forall k :: 0 <= k < i ==> message[k] == user[k]
        invariant forall k :: i <= k < BUF_LEN ==> message[k] == was[k]
      {
        message[i] := user[i];
        i := i + 1;
      }
      cursor := 0;
      assert message[..i] == user[..i] && message[i..] == was[i..];
      return i;
    }

    /** IOCTL_SET_MSG: finds the length of the user's string, then writes that many bytes. */
    method IoctlSetMsg(user: string)
      requires Valid() && (Terminated(user) || BUF_LEN <= |user|)
      modifies this`cursor, message
      ensures Valid() && cursor == 0
      ensures message[..] == Written(old(message[..]), SetData(user))
      ensures var n := |CString(user)|;
              forall i :: 0 <= i < BUF_LEN ==> message[i] == if i < n then CString(user)[i]
                                                             else if i == n > 0 then '\0' else old(message[i])
    {
      CStringIs(user);
      var ch := user[0];
      var i := 0;
      while ch != '\0' && i < BUF_LEN
        invariant 0 <= i <= BUF_LEN && (i == 0 ==> ch == user[0])
        invariant i > 0 ==> i <= |user| && ch == user[i - 1] && i - 1 <= |CString(user)| && user[0] != '\0'
        decreases BUF_LEN - i
      {
        ch := user[i];
        i := i + 1;
      }
      assert SetData(user) == user[..i];
      var _ := Write(user, i);
    }

    /** IOCTL_GET_MSG: reads up to 99 bytes into the user's buffer and puts a NUL behind them; the rest stays. */
    method IoctlGetMsg(buffer: array<char>)
      requires Valid() && Terminated(Ahead()) && buffer != message && |CString(Ahead())| < buffer.Length
      modifies this`cursor, buffer
      ensures Valid() && Terminated(Ahead()) && CString(Ahead()) == ""
      ensures var m := CString(old(Ahead()));
              buffer[..] == m + "\0" + old(buffer[..])[|m| + 1..] && CString(buffer[..]) == m
    {
      hide CString;
      ghost var was, all := buffer[..], CString(Ahead());
      CStringIs(Ahead());
      var i := Read(buffer, 99);
      CStringIs(Ahead());
      assert buffer[i..] == was[i..];
      buffer[i] := '\0';
      assert buffer[i + 1..] == was[i + 1..];
      CStringStopsAtNul(all, was[i + 1..]);
      assert buffer[..] == buffer[..i] + [buffer[i]] + buffer[i + 1..];
    }
  }

  /** A C string ends at the first NUL, which is there. */
  lemma {:induction false} CStringIs(s: string)
    ensures var c := CString(s);
            && '\0' !in c && c == s[..|c|]
            && (Terminated(s) ==> |c| < |s| && s[|c|] == '\0') && (!Terminated(s) ==> c == s)
  {
    if s != "" && s[0] != '\0' {
      CStringIs(s[1..]);
    }
  }

  /** Moving the start over k of its bytes leaves the rest of the string. */
  lemma {:induction false} CStringRest(s: string, k: nat)
    requires Terminated(s) && k <= |CString(s)|
    ensures CString(s[k..]) == CString(s)[k..] && Terminated(s[k..])
  {
    if k > 0 {
      CStringRest(s[1..], k - 1);
      assert s[1..][k - 1..] == s[k..];
    } else {
      assert s[0..] == s;
    }
  }

  // ----- the message round trip

  /** Reads of the buffer from its start stop inside it and deliver exactly m. */
  predicate Shows(buf: string, m: string) {
    Terminated(buf) && CString(buf) == m
  }

  /**
   * A message set by ioctl is what the device shows exactly when its length is from 1 to 79, over any
   * stale contents; an empty message is shown only if an empty one was there before, and a longer one
   * leaves no terminator.
   */
  lemma SetMessageShows(buf: string, m: string, tail: string)
    requires |buf| == BUF_LEN && '\0' !in m
    ensures var user := m + "\0" + tail;
            Shows(Written(buf, SetData(user)), m) <==> 1 <= |m| < BUF_LEN || (m == "" && buf[0] == '\0')
  {
    var user := m + "\0" + tail;
    CStringStopsAtNul(m, tail);
    var after := Written(buf, SetData(user));
    CStringIs(after);
    if 1 <= |m| < BUF_LEN {
      CStringStopsAtNul(m, buf[|m| + 1..]);
      assert after == m + "\0" + buf[|m| + 1..];
    } else if m == "" {
      assert after == buf;
    } else {
      assert after == m[..BUF_LEN];
    }
  }

  /**
   * What the device shows after a write without NULs: the data, then whatever stood behind it. So a write
   * shorter than the message shown before leaves the end of that message behind the data.
   */
  lemma {:induction false} WriteShows(buf: string, data: string, m: string)
    requires |buf| == BUF_LEN && |data| <= BUF_LEN && '\0' !in data
    ensures CString(Written(buf, data)) == data + CString(buf[|data|..])
    ensures Shows(buf, m) && |data| <= |m| ==> Shows(Written(buf, data), data + m[|data|..])
  {
    var rest := buf[|data|..];
    assert Written(buf, data) == data + rest;
    CStringBehind(data, rest);
    if Shows(buf, m) && |data| <= |m| {
      CStringRest(buf, |data|);
      var k :| 0 <= k < |rest| && rest[k] == '\0';
      assert (data + rest)[|data| + k] == '\0';
    }
  }

  lemma {:induction false} CStringBehind(s: string, rest: string)
    requires '\0' !in s
    ensures CString(s + rest) == s + CString(rest)
  {
    if s == "" {
      assert s + rest == rest;
    } else {
      CStringBehind(s[1..], rest);
      assert (s + rest)[1..] == s[1..] + rest && s[0] == (s + rest)[0];
    }
  }

  /** Each read delivers as much as it asks for, or all that is left. */
  lemma {:induction false} DeliveryLengths(content: string, lengths: seq<nat>, i: nat)
    requires i < |lengths|
    ensures var d := Deliveries(content, lengths);
            |d| == |lengths| && |d[i]| == Min(lengths[i], |content| - |Joined(d[..i])|)
    decreases |lengths|
  {
    var n := Min(lengths[0], |content|);
    var d, rest := Deliveries(content, lengths), Deliveries(content[n..], lengths[1..]);
    if i > 0 {
      DeliveryLengths(content[n..], lengths[1..], i - 1);
      assert d[..i] == [content[..n]] + rest[..i - 1];
      assert d[..i][1..] == rest[..i - 1];
    } else if |lengths| > 1 {
      DeliveryLengths(content[n..], lengths[1..], 0);
    }
  }

  /** Reads of any lengths deliver consecutive parts; once one delivers nothing, all has been delivered. */
  lemma {:induction false} DeliveriesJoin(content: string, lengths: seq<nat>)
    requires forall i :: 0 <= i < |lengths| ==> lengths[i] > 0
    ensures Joined(Deliveries(content, lengths)) <= content
    ensures "" in Deliveries(content, lengths) ==> Joined(Deliveries(content, lengths)) == content
    decreases |lengths|
  {
    if lengths != [] {
      var n := Min(lengths[0], |content|);
      DeliveriesJoin(content[n..], lengths[1..]);
      assert content == content[..n] + content[n..];
    }
  }

  /** One read into a buffer of the length asked for. */
  method ReadOnce(dev: Device, length: nat) returns (piece: string)
    requires dev.Valid() && Terminated(dev.Ahead())
    modifies dev`cursor
    ensures dev.Valid() && Terminated(dev.Ahead())
    ensures var content := CString(old(dev.Ahead()));
            && |piece| == Min(length, |content|) && piece == content[..|piece|]
            && CString(dev.Ahead()) == content[|piece|..]
  {
    var buffer := new char[length];
    var n := dev.Read(buffer, length);
    return buffer[..n];
  }

  /** IOCTL_SET_MSG with a message that fits: the device shows it from its start. */
  method SetMessage(dev: Device, m: string, tail: string)
    requires dev.Valid() && '\0' !in m && 1 <= |m| < BUF_LEN
    modifies dev`cursor, dev.message
    ensures dev.Valid() && Terminated(dev.Ahead()) && CString(dev.Ahead()) == m
  {
    hide CString, Device.Ahead, Written, SetData;
    SetMessageShows(dev.message[..], m, tail);
    dev.IoctlSetMsg(m + "\0" + tail);
    Rewound(dev);
  }

  /** Reads with the given lengths until one delivers nothing. */
  method ReadAll(dev: Device, lengths: seq<nat>) returns (got: string, ended: bool)
    requires dev.Valid() && Terminated(dev.Ahead())
    requires forall i :: 0 <= i < |lengths| ==> lengths[i] > 0
    modifies dev`cursor
    ensures dev.Valid() && Terminated(dev.Ahead()) && CString(old(dev.Ahead())) == got + CString(dev.Ahead())
    ensures ended ==> got == CString(old(dev.Ahead()))
    ensures ended <==> Drains(CString(old(dev.Ahead())), lengths)
    decreases |lengths|
  {
    hide CString, Terminated, Device.Ahead, Device.Valid, Drains;
    ghost var content := CString(dev.Ahead());
    got, ended := "", false;
    if lengths == [] {
      NothingDrains(content);
      return;
    }
    OneDelivery(content, lengths);
    var piece := ReadOnce(dev, lengths[0]);
    if piece == "" {
      ended := true;
    } else {
      got, ended := ReadAll(dev, lengths[1..]);
      got := piece + got;
    }
  }

  /** A session: set a message, then read with the given lengths until a read delivers nothing. */
  method SetAndRead(dev: Device, m: string, tail: string, lengths: seq<nat>) returns (got: string, ended: bool)
    requires dev.Valid() && '\0' !in m && 1 <= |m| < BUF_LEN
    requires forall i :: 0 <= i < |lengths| ==> lengths[i] > 0
    modifies dev`cursor, dev.message
    ensures dev.Valid() && got <= m && (ended ==> got == m)
    ensures ended <==> "" in Deliveries(m, lengths)
  {
    hide CString, Terminated, Device.Ahead;
    SetMessage(dev, m, tail);
    got, ended := ReadAll(dev, lengths);
  }

  /** Set a message by ioctl, then get it by ioctl into any buffer that holds it and its NUL. */
  method SetAndGet(dev: Device, m: string, tail: string, buffer: array<char>)
    requires dev.Valid() && '\0' !in m && 1 <= |m| < BUF_LEN && |m| < buffer.Length && buffer != dev.message
    modifies dev, dev.message, buffer
    ensures dev.Valid() && CString(buffer[..]) == m && buffer[|m| + 1..] == old(buffer[|m| + 1..])
  {
    hide CString, Device.Ahead;
    ghost var was := buffer[..];
    SetMessage(dev, m, tail);
    dev.IoctlGetMsg(buffer);
    assert buffer[|m| + 1..] == was[|m| + 1..];
  }

  /** A whole session of one process; a busy device refuses it and nothing changes, and it leaves the device free. */
  method Session(dev: Device, m: string, tail: string, lengths: seq<nat>) returns (ok: bool, got: string, ended: bool)
    requires dev.Valid() && '\0' !in m && 1 <= |m| < BUF_LEN
    requires forall i :: 0 <= i < |lengths| ==> lengths[i] > 0
    modifies dev, dev.message
    ensures dev.Valid() && ok == (old(dev.deviceOpen) == 0) && dev.deviceOpen == old(dev.deviceOpen)
    ensures ok ==> got <= m && (ended ==> got == m) && (ended <==> "" in Deliveries(m, lengths))
    ensures !ok ==> dev.message[..] == old(dev.message[..]) && dev.cursor == old(dev.cursor)
  {
    got, ended := "", false;
    ok := dev.Open();
    if !ok { return; }
    got, ended := SetAndRead(dev, m, tail, lengths);
    dev.Release();
  }

  lemma Rewound(dev: Device)
    requires dev.Valid() && dev.cursor == 0
    ensures dev.Ahead() == dev.message[..]
  {
  }

  /** Reads of these lengths come to one that delivers nothing. */
  predicate Drains(content: string, lengths: seq<nat>) {
    "" in Deliveries(content, lengths)
  }

  lemma NothingDrains(content: string)
    ensures !Drains(content, [])
  {
  }

  lemma OneDelivery(content: string, lengths: seq<nat>)
    requires lengths != []
    ensures var n := Min(lengths[0], |content|);
            Drains(content, lengths) <==> n == 0 || Drains(content[n..], lengths[1..])
  {
    assert content[..0] == "";
  }
}
