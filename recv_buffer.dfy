/**
 * Copying received bytes into the client's buffer: `xtcp_recv` and
 * `xtcp_recvi` write everything that arrived, starting at index 0 or i;
 * `xtcp_recv_count` stores no more than `count` bytes, drops the rest and
 * reports how many bytes it pulled from the stack.
 */
module RecvBuffer {
  import opened XtcpTypes

  /** `s` with `src` written over it from index `i` on. */
  function Splice(s: seq<byte>, i: nat, src: seq<byte>): (r: seq<byte>)
    requires i + |src| <= |s|
    ensures |r| == |s|
    ensures forall k :: 0 <= k < |s| ==> r[k] == if i <= k < i + |src| then src[k - i] else s[k]
  {
    s[..i] + src + s[i + |src|..]
  }

  /** How many of `available` bytes a receive capped at `count` stores. */
  function StoredCount(available: nat, count: int): (n: nat)
    ensures n <= available && n <= if count < 0 then 0 else count
    ensures n == available || n == count || (count < 0 && n == 0)
  {
    if count < 0 then 0 else if available <= count then available else count
  }

  /** Writes `src` into `data` from index `i`; nothing else changes. */
  method WriteAt(data: array<byte>, i: nat, src: seq<byte>)
    requires i + |src| <= data.Length
    modifies data
    ensures data[..] == Splice(old(data[..]), i, src)
  {
    var k := 0;
    while k < |src|
      invariant 0 <= k <= |src|
      invariant forall m :: 0 <= m < data.Length ==>
        data[m] == if i <= m < i + k then src[m - i] else old(data[m])
    {
      data[i + k] := src[k];
      k := k + 1;
    }
    assert forall m :: 0 <= m < data.Length ==> data[..][m] == Splice(old(data[..]), i, src)[m];
  }

  /** `xtcp_recvi`: all of the available bytes land at `data[i..]`; the
      result is their number. */
  method PullInto(data: array<byte>, i: nat, available: seq<byte>) returns (n: nat)
    requires i + |available| <= data.Length
    modifies data
    ensures n == |available|
    ensures data[i..i + n] == available
    ensures data[..i] == old(data[..i]) && data[i + n..] == old(data[i + n..])
    ensures data[..] == Splice(old(data[..]), i, available)
  {
    WriteAt(data, i, available);
    n := |available|;
    assert data[i..i + n] == data[..][i..i + n];
  }

  /** `xtcp_recv_count`: at most `count` bytes are stored at `data[0..]`,
      the rest of the available bytes are dropped, and the result is the
      number of bytes pulled from the stack, which may exceed `count`. */
  method PullCount(data: array<byte>, available: seq<byte>, count: int) returns (n: nat)
    requires StoredCount(|available|, count) <= data.Length
    modifies data
    ensures n == |available|
    ensures var stored := StoredCount(n, count);
      && data[..stored] == available[..stored]
      && data[stored..] == old(data[stored..])
    ensures data[..] == Splice(old(data[..]), 0, available[..StoredCount(|available|, count)])
  {
    var stored := StoredCount(|available|, count);
    WriteAt(data, 0, available[..stored]);
    n := |available|;
    assert data[..stored] == data[..][..stored];
  }
}
