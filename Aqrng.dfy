/** The entropy-source chain of `aqrng.py`: the chunked fetch from the ANU
    quantum random number service and the fixed-priority fallback
    SDR, then ANU, then `secrets`. The network is a parameter: `reply(k, ask)`
    is what the service answers to the `k`-th request, which asks for `ask`
    values. */
module Aqrng {
  import opened Common
  import SdrRng

  /** `max_chunk`: the most values one request asks for. */
  const MaxChunk: nat := 1024

  /** What one request yields after `urlopen` and `json.loads`:
      - `Failed`: the request raised (`URLError`, a timeout, or any other
        exception, including a `data` list whose items are not integers);
      - `Undecodable`: the body is not UTF-8 JSON;
      - `NoData`: the JSON has no `data`, or it is empty or not a list;
      - `Values(data)`: `data` is a non-empty list of integers. */
  datatype AnuReply = Failed | Undecodable | NoData | Values(data: seq<int>)

  /** The reply becomes bytes: a non-empty list of integers in 0..255
      (`bytes(data)` raises `ValueError` on any other integer). */
  predicate Accepted(reply: AnuReply)
  {
    && reply.Values?
    && |reply.data| > 0
    && forall j :: 0 <= j < |reply.data| ==> 0 <= reply.data[j] < 256
  }

  function AsBytes(data: seq<int>): (r: seq<byte>)
    requires forall j :: 0 <= j < |data| ==> 0 <= data[j] < 256
    ensures |r| == |data|
  {
    seq(|data|, j requires 0 <= j < |data| => data[j] as byte)
  }

  /** `min(remaining, max_chunk)`. */
  function Ask(remaining: int): nat
    requires remaining > 0
  {
    if remaining < MaxChunk then remaining else MaxChunk
  }

  function Prepend(prefix: seq<byte>, rest: Option<seq<byte>>): Option<seq<byte>>
  {
    if rest.Some? then Some(prefix + rest.value) else None
  }

  /** The fetch from request `k` on with `remaining` values still wanted:
      the chunks in order, or `None` as soon as one reply is not accepted
      (earlier chunks are discarded). */
  function FetchFrom(reply: (nat, nat) -> AnuReply, k: nat, remaining: int): (r: Option<seq<byte>>)
    ensures remaining <= 0 ==> r == Some([])
    ensures remaining > 0 && !Accepted(reply(k, Ask(remaining))) ==> r.None?
    decreases remaining
  {
    if remaining <= 0 then Some([])
    else
      var answer := reply(k, Ask(remaining));
      if !Accepted(answer) then None
      else Prepend(AsBytes(answer.data), FetchFrom(reply, k + 1, remaining - |answer.data|))
  }

  /** The lengths asked for, request by request, until the fetch ends. */
  function Asks(reply: (nat, nat) -> AnuReply, k: nat, remaining: int): (r: seq<nat>)
    ensures remaining > 0 ==> r != [] && r[0] == Ask(remaining)
    ensures remaining > 0 && !Accepted(reply(k, Ask(remaining))) ==> r == [Ask(remaining)]
    decreases remaining
  {
    if remaining <= 0 then []
    else
      var answer := reply(k, Ask(remaining));
      if !Accepted(answer) then [Ask(remaining)]
      else [Ask(remaining)] + Asks(reply, k + 1, remaining - |answer.data|)
  }

  /** Every request asks for between 1 and 1024 values, and none at all is
      made when nothing is wanted. */
  lemma {:induction false} AsksBounded(reply: (nat, nat) -> AnuReply, k: nat, remaining: int)
    ensures remaining <= 0 <==> Asks(reply, k, remaining) == []
    ensures forall j :: 0 <= j < |Asks(reply, k, remaining)| ==>
      1 <= Asks(reply, k, remaining)[j] <= MaxChunk
    decreases remaining
  {
    if remaining > 0 {
      var answer := reply(k, Ask(remaining));
      if Accepted(answer) {
        AsksBounded(reply, k + 1, remaining - |answer.data|);
      }
    }
  }

  /** A successful fetch holds at least the `remaining` values wanted; it
      holds exactly that many when the service never sends more than it
      was asked for. */
  lemma {:induction false} FetchLength(reply: (nat, nat) -> AnuReply, k: nat, remaining: int)
    ensures var r := FetchFrom(reply, k, remaining);
      r.Some? ==> |r.value| >= remaining
    ensures (forall j, a :: j >= k && a > 0 && reply(j, a).Values? ==> |reply(j, a).data| <= a) ==>
      var r := FetchFrom(reply, k, remaining);
      r.Some? ==> |r.value| == if remaining <= 0 then 0 else remaining
    decreases remaining
  {
    if remaining > 0 {
      var answer := reply(k, Ask(remaining));
      if Accepted(answer) {
        FetchLength(reply, k + 1, remaining - |answer.data|);
      }
    }
  }

  lemma PrependAssoc(a: seq<byte>, b: seq<byte>, o: Option<seq<byte>>)
    ensures Prepend(a, Prepend(b, o)) == Prepend(a + b, o)
  {
    if o.Some? {
      assert a + (b + o.value) == (a + b) + o.value;
    }
  }

  function Join(parts: seq<seq<byte>>): seq<byte>
  {
    if parts == [] then [] else Join(parts[..|parts| - 1]) + parts[|parts| - 1]
  }

  /** `_fetch_anu_bytes(n)`. */
  method FetchAnuBytes(n: int, reply: (nat, nat) -> AnuReply) returns (r: Option<seq<byte>>)
    ensures r == FetchFrom(reply, 0, n)
  {
    if n <= 0 {
      return Some([]);
    }
    var parts: seq<seq<byte>> := [];
    var remaining := n;
    var k: nat := 0;
    assert Join(parts) == [];
    var whole := FetchFrom(reply, 0, n);
    if whole.Some? {
      assert [] + whole.value == whole.value;
    }
    while remaining > 0
      invariant Prepend(Join(parts), FetchFrom(reply, k, remaining)) == FetchFrom(reply, 0, n)
      decreases remaining
    {
      var answer := reply(k, Ask(remaining));
      if !Accepted(answer) {
        return None;
      }
      var chunk := AsBytes(answer.data);
      PrependAssoc(Join(parts), chunk, FetchFrom(reply, k + 1, remaining - |answer.data|));
      assert Join(parts + [chunk]) == Join(parts) + chunk;
      parts := parts + [chunk];
      remaining := remaining - |answer.data|;
      k := k + 1;
    }
    assert Prepend(Join(parts), Some([])) == Some(Join(parts) + []);
    assert Join(parts) + [] == Join(parts);
    r := Some(Join(parts));
  }

  /** A source's result is used when it is there and long enough. */
  predicate Usable(result: Option<seq<byte>>, n: int)
  {
    result.Some? && |result.value| >= n
  }

  /** `get_random_bytes(n, prefer_online)`. `sdrImported` says whether the
      SDR helper could be imported; `sdr` is what it returned (`None` also
      for an exception); `tokenBytes` is `secrets.token_bytes(n)`. The ANU
      attempt is the fetch above. `prefer_online` is accepted and ignored. */
  function GetRandomBytes(n: int, preferOnline: bool, sdrImported: bool, sdr: Option<seq<byte>>,
                          reply: (nat, nat) -> AnuReply, tokenBytes: seq<byte>): (r: seq<byte>)
    requires n > 0 ==> |tokenBytes| == n
    ensures n <= 0 ==> r == []
    ensures n > 0 ==> |r| == n
    ensures n > 0 && sdrImported && Usable(sdr, n) ==> r == sdr.value[..n]
    ensures n > 0 && !(sdrImported && Usable(sdr, n)) && Usable(FetchFrom(reply, 0, n), n) ==>
      r == FetchFrom(reply, 0, n).value[..n]
    ensures n > 0 && !(sdrImported && Usable(sdr, n)) && !Usable(FetchFrom(reply, 0, n), n) ==>
      r == tokenBytes
  {
    if n <= 0 then []
    else if sdrImported && Usable(sdr, n) then sdr.value[..n]
    else
      var anu := FetchFrom(reply, 0, n);
      if Usable(anu, n) then anu.value[..n]
      else tokenBytes
  }

  /** The result does not depend on `prefer_online`. */
  lemma PreferOnlineIgnored(n: int, sdrImported: bool, sdr: Option<seq<byte>>,
                            reply: (nat, nat) -> AnuReply, tokenBytes: seq<byte>)
    requires n > 0 ==> |tokenBytes| == n
    ensures GetRandomBytes(n, true, sdrImported, sdr, reply, tokenBytes)
         == GetRandomBytes(n, false, sdrImported, sdr, reply, tokenBytes)
  {
  }

  /** A successful ANU fetch is always long enough, so the secure software
      generator is reached only when both the radio and the network fail. */
  lemma SoftwareOnlyWhenBothFail(n: int, preferOnline: bool, sdrImported: bool, sdr: Option<seq<byte>>,
                                 reply: (nat, nat) -> AnuReply, tokenBytes: seq<byte>)
    requires n > 0 && |tokenBytes| == n
    requires FetchFrom(reply, 0, n).Some?
    requires !(sdrImported && Usable(sdr, n))
    ensures var anu := FetchFrom(reply, 0, n).value;
      && |anu| >= n
      && GetRandomBytes(n, preferOnline, sdrImported, sdr, reply, tokenBytes) == anu[..n]
  {
    FetchLength(reply, 0, n);
  }

  /** When the SDR helper imports, its own fallback to `secrets` always
      returns `n` bytes, so the chain never gets as far as the ANU service,
      whatever the radio and the network do. */
  lemma AnuNeverReachedWhenSdrImports(n: int, preferOnline: bool, sdrAvailable: bool,
                                      collect: nat -> Option<seq<byte>>, clockMs: nat -> int,
                                      sha256: seq<byte> -> SdrRng.Digest, helperTokenBytes: seq<byte>,
                                      reply: (nat, nat) -> AnuReply, tokenBytes: seq<byte>)
    requires n > 0 && |helperTokenBytes| == n && |tokenBytes| == n
    ensures var sdr := SdrRng.Whitened(n, SdrRng.DefaultMaxCycles, collect, clockMs, sha256);
      var helper := SdrRng.GetRandomBytes(n, true, sdrAvailable, sdr, helperTokenBytes);
      && helper.Success?
      && GetRandomBytes(n, preferOnline, true, Some(helper.value), reply, tokenBytes) == helper.value
  {
    SdrRng.GetRandomBytesLength(n, true, sdrAvailable, collect, clockMs, sha256, helperTokenBytes);
    var sdr := SdrRng.Whitened(n, SdrRng.DefaultMaxCycles, collect, clockMs, sha256);
    var helper := SdrRng.GetRandomBytes(n, true, sdrAvailable, sdr, helperTokenBytes);
    assert helper.value[..n] == helper.value;
  }
}
