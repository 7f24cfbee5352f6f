/** Copies into fixed-size character buffers; an index past the end would not verify. */
module Buffers {

  /** `memcpy(buf + at, s, |s|)`. */
  method Put(buf: array<char>, at: nat, s: string) returns (next: nat)
    requires at + |s| <= buf.Length
    modifies buf
    ensures next == at + |s|
    ensures buf[..next] == old(buf[..at]) + s
    ensures forall k :: next <= k < buf.Length ==> buf[k] == old(buf[k])
  {
    for i := 0 to |s|
      invariant forall k :: 0 <= k < i ==> buf[at + k] == s[k]
      invariant forall k :: 0 <= k < at ==> buf[k] == old(buf[k])
      invariant forall k :: at + i <= k < buf.Length ==> buf[k] == old(buf[k])
    {
      buf[at + i] := s[i];
    }
    next := at + |s|;
  }
}
