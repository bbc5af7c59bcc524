/** Slices of byte arrays, sharing memory with the array they were cut from. */
module Slices {
  import opened Bytes

  datatype RawSlice = Nil | View(a: array<byte>, lo: nat, hi: nat)

  type Slice = s: RawSlice | s.View? ==> s.lo <= s.hi <= s.a.Length witness Nil

  /** What a slice holds now; None for a nil slice. */
  function Contents(s: Slice): Option<seq<byte>>
    reads if s.View? then {s.a} else {}
  {
    if s.View? then Some(s.a[s.lo..s.hi]) else None
  }

  method FromSeq(s: seq<byte>) returns (r: Slice)
    ensures r.View? && fresh(r.a) && Contents(r) == Some(s)
  {
    var a := new byte[|s|](i requires 0 <= i < |s| => s[i]);
    assert a[0..|s|] == s;
    r := View(a, 0, |s|);
  }
}
