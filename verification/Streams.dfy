/** Byte streams that are read in chunks. */
module Streams {

  import opened Bytes

  /** A connection to read from. A read returns at least one byte, at most as many as
      asked for, in chunks of any size; at the end of the input it returns nothing. */
  class Source {
    var incoming: seq<byte>

    /** Whether every read fills its buffer as long as enough bytes are left. */
    const whole: bool

    constructor (s: seq<byte>, whole: bool)
      ensures incoming == s && this.whole == whole
    {
      incoming := s;
      this.whole := whole;
    }

    method ReadByte() returns (b: Option<byte>)
      modifies this
      ensures old(incoming) == [] ==> b == None && incoming == []
      ensures old(incoming) != [] ==> b == Some(old(incoming)[0]) && incoming == old(incoming)[1..]
    {
      if incoming == [] {
        return None;
      }
      b := Some(incoming[0]);
      incoming := incoming[1..];
    }

    /** Reads into msg[at..at + k]. */
    method Read(msg: array<byte>, at: nat, k: nat) returns (n: nat, eof: bool)
      requires 1 <= k && at + k <= msg.Length
      modifies this, msg
      ensures eof <==> old(incoming) == []
      ensures n <= k && n <= |old(incoming)| && (!eof ==> n >= 1) && (eof ==> n == 0)
      ensures whole ==> n == if k <= |old(incoming)| then k else |old(incoming)|
      ensures incoming == old(incoming)[n..]
      ensures msg[at..at + n] == old(incoming)[..n]
      ensures msg[..at] == old(msg[..at]) && msg[at + n..] == old(msg[at + n..])
    {
      if incoming == [] {
        return 0, true;
      }
      var chunk: nat := *;
      n := if 1 <= chunk <= k && !whole then chunk else k;
      n := if n <= |incoming| then n else |incoming|;
      for i := 0 to n
        invariant incoming == old(incoming)
        invariant forall j :: 0 <= j < i ==> msg[at + j] == incoming[j]
        invariant forall j :: 0 <= j < msg.Length && !(at <= j < at + i) ==> msg[j] == old(msg[j])
      {
        msg[at + i] := incoming[i];
      }
      assert msg[at..at + n] == incoming[..n];
      incoming := incoming[n..];
      eof := false;
    }
  }

  /** io.ReadFull: fills buf, or takes all that is left and fails. */
  method ReadFull(src: Source, buf: array<byte>) returns (n: nat, failed: bool)
    modifies src, buf
    ensures n == if buf.Length <= |old(src.incoming)| then buf.Length else |old(src.incoming)|
    ensures failed == (n < buf.Length)
    ensures buf[..n] == old(src.incoming)[..n] && src.incoming == old(src.incoming)[n..]
    ensures buf[n..] == old(buf[n..])
  {
    n := 0;
    while n < buf.Length
      invariant n <= buf.Length && n <= |old(src.incoming)|
      invariant src.incoming == old(src.incoming)[n..]
      invariant buf[..n] == old(src.incoming)[..n]
      invariant buf[n..] == old(buf[..])[n..]
      decreases buf.Length - n
    {
      var m, eof := src.Read(buf, n, buf.Length - n);
      if eof { return n, true; }
      ghost var s := old(src.incoming);
      assert s[n..][m..] == s[n + m..];
      assert old(buf[..])[n..][m..] == old(buf[..])[n + m..];
      assert s[..n + m] == s[..n] + s[n..][..m];
      assert buf[..n + m] == buf[..n] + buf[n..n + m];
      n := n + m;
    }
    return n, false;
  }
}
