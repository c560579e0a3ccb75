/**
 * The chunked listing of app.py, `read_pokemons`: after learning the
 * total number of Pokémon, it asks for one chunk at every offset of
 * `range(0, total, chunk_size)`, gathers the chunk responses in request
 * order and extends one list with them in that order.  The requests
 * themselves go over the network; here the server is the function `fetch`
 * from a request to the entries it returns.
 */
module ChunkPlan {
  import opened Wrappers

  /** One entry of the listing: a Pokémon's name and its detail URL. */
  datatype IndexEntry = IndexEntry(name: string, url: string)

  /** A request for `limit` entries starting at `offset`. */
  datatype ChunkRequest = ChunkRequest(offset: int, limit: int)

  /** The chunk size `read_pokemons` uses when none is given. */
  const DefaultChunkSize := 100

  /** Python's `range(start, stop, step)`: from `start`, adding `step`,
      while below `stop` (a positive step) or above it (a negative one). */
  function Range(start: int, stop: int, step: int): seq<int>
    requires step != 0
    decreases if step > 0 then stop - start else start - stop
  {
    if (step > 0 && start < stop) || (step < 0 && start > stop) then
      [start] + Range(start + step, stop, step)
    else
      []
  }

  /** The chunk offsets of `read_pokemons`. */
  function Offsets(total: int, size: int): seq<int>
    requires size != 0
  {
    Range(0, total, size)
  }

  /** One request per offset, each for a whole chunk, in offset order. */
  function Requests(offsets: seq<int>, size: int): (rs: seq<ChunkRequest>)
    ensures |rs| == |offsets|
    ensures forall i :: 0 <= i < |rs| ==> rs[i] == ChunkRequest(offsets[i], size)
  {
    if |offsets| == 0 then [] else [ChunkRequest(offsets[0], size)] + Requests(offsets[1..], size)
  }

  /** The responses to the requests, in request order (what gathering the
      concurrent requests returns). */
  function Gather(requests: seq<ChunkRequest>, fetch: ChunkRequest -> seq<IndexEntry>): (chunks: seq<seq<IndexEntry>>)
    ensures |chunks| == |requests|
    ensures forall i :: 0 <= i < |chunks| ==> chunks[i] == fetch(requests[i])
  {
    if |requests| == 0 then [] else [fetch(requests[0])] + Gather(requests[1..], fetch)
  }

  /** The chunks joined in order, one `extend` at a time. */
  function Flatten(chunks: seq<seq<IndexEntry>>): seq<IndexEntry>
  {
    if |chunks| == 0 then [] else Flatten(chunks[..|chunks| - 1]) + chunks[|chunks| - 1]
  }

  /** The total number of entries in the chunks. */
  function SumLengths(chunks: seq<seq<IndexEntry>>): nat
  {
    if |chunks| == 0 then 0 else |chunks[0]| + SumLengths(chunks[1..])
  }

  // ---- The offsets ----

  /** The k-th offset is `k * size`, every offset is below `total`, and
      they ascend. */
  lemma {:induction false} RangeElements(start: int, stop: int, step: int)
    requires step > 0
    ensures var r := Range(start, stop, step);
      && (forall i :: 0 <= i < |r| ==> r[i] == start + i * step && start <= r[i] < stop)
      && (forall i, j :: 0 <= i < j < |r| ==> r[i] < r[j])
    decreases stop - start
  {
    var r := Range(start, stop, step);
    if start < stop {
      RangeElements(start + step, stop, step);
      assert r == [start] + Range(start + step, stop, step);
      forall i | 0 < i < |r|
        ensures r[i] == start + i * step
      {
        assert r[i] == Range(start + step, stop, step)[i - 1];
        assert (i - 1) * step + step == i * step;
      }
    }
  }

  /** A positive range has as many elements as `step` fits in
      `stop - start` rounded up: `n` elements with
      `(n - 1) * step < stop - start <= n * step`. */
  lemma {:induction false} RangeLength(start: int, stop: int, step: int)
    requires step > 0
    ensures var n := |Range(start, stop, step)|;
      if start < stop then (n - 1) * step < stop - start <= n * step else n == 0
    decreases stop - start
  {
    if start < stop {
      RangeLength(start + step, stop, step);
      var m := |Range(start + step, stop, step)|;
      assert |Range(start, stop, step)| == m + 1;
      assert (m + 1) * step == m * step + step;
    }
  }

  /** The offsets are `0, size, 2 * size, ...` strictly below `total`, in
      ascending order; there are `total / size` rounded up of them, and none
      when `total` is 0 or less. */
  lemma OffsetsShape(total: int, size: int)
    requires size > 0
    ensures var offs := Offsets(total, size); var n := |offs|;
      && (if total > 0 then (n - 1) * size < total <= n * size else n == 0)
      && (forall i :: 0 <= i < n ==> offs[i] == i * size && 0 <= offs[i] < total)
      && (forall i, j :: 0 <= i < j < n ==> offs[i] < offs[j])
  {
    RangeLength(0, total, size);
    RangeElements(0, total, size);
  }

  /** A concrete plan: 250 entries in chunks of 100 are asked for at 0, 100
      and 200. */
  lemma OffsetsExample()
    ensures Offsets(250, 100) == [0, 100, 200]
    ensures Offsets(0, DefaultChunkSize) == []
  {
    assert Range(300, 250, 100) == [];
    assert Range(200, 250, 100) == [200];
    assert Range(100, 250, 100) == [100, 200];
  }

  // ---- Joining the chunks ----

  /** Joining a chunk in front of the others puts its entries first. */
  lemma {:induction false} FlattenCons(x: seq<IndexEntry>, rest: seq<seq<IndexEntry>>)
    ensures Flatten([x] + rest) == x + Flatten(rest)
    decreases |rest|
  {
    if |rest| > 0 {
      var init := rest[..|rest| - 1];
      assert ([x] + rest)[..|rest|] == [x] + init;
      FlattenCons(x, init);
    } else {
      assert [x] + rest == [x];
      assert [x][..0] == [];
    }
  }

  /** The joined list holds as many entries as the chunks together. */
  lemma {:induction false} FlattenLength(chunks: seq<seq<IndexEntry>>)
    ensures |Flatten(chunks)| == SumLengths(chunks)
    decreases |chunks|
  {
    if |chunks| > 0 {
      assert chunks == [chunks[0]] + chunks[1..];
      FlattenCons(chunks[0], chunks[1..]);
      FlattenLength(chunks[1..]);
    }
  }

  /** Entry `t` of chunk `j` sits in the joined list after all the entries
      of the chunks before it. */
  lemma {:induction false} FlattenIndex(chunks: seq<seq<IndexEntry>>, j: int, t: int)
    requires 0 <= j < |chunks| && 0 <= t < |chunks[j]|
    ensures SumLengths(chunks[..j]) + t < |Flatten(chunks)|
    ensures Flatten(chunks)[SumLengths(chunks[..j]) + t] == chunks[j][t]
    decreases j
  {
    assert chunks == [chunks[0]] + chunks[1..];
    FlattenCons(chunks[0], chunks[1..]);
    FlattenLength(chunks[1..]);
    if j > 0 {
      var tail := chunks[1..];
      assert chunks[..j] == [chunks[0]] + tail[..j - 1];
      assert SumLengths(chunks[..j]) == |chunks[0]| + SumLengths(tail[..j - 1]);
      FlattenIndex(tail, j - 1, t);
    }
  }

  // ---- The whole listing ----

  /** The server's answer to a request over a collection `c`: the entries
      from the offset on, at most `limit` of them. */
  function Serve(c: seq<IndexEntry>, q: ChunkRequest): seq<IndexEntry>
  {
    var lo := if q.offset < 0 then 0 else if q.offset > |c| then |c| else q.offset;
    var hi := if q.offset + q.limit < lo then lo else if q.offset + q.limit > |c| then |c| else q.offset + q.limit;
    c[lo..hi]
  }

  /** The listing from offset `start` on is the chunk at `start` followed
      by the listing from the next offset on. */
  lemma ListingStep(start: int, stop: int, size: int, fetch: ChunkRequest -> seq<IndexEntry>)
    requires size > 0 && start < stop
    ensures Flatten(Gather(Requests(Range(start, stop, size), size), fetch))
         == fetch(ChunkRequest(start, size)) + Flatten(Gather(Requests(Range(start + size, stop, size), size), fetch))
  {
    var offs := Range(start, stop, size);
    assert offs[1..] == Range(start + size, stop, size);
    var rest := Gather(Requests(offs[1..], size), fetch);
    assert Gather(Requests(offs, size), fetch) == [fetch(ChunkRequest(start, size))] + rest;
    FlattenCons(fetch(ChunkRequest(start, size)), rest);
  }

  /** Chunks asked for from offset `start` on, served from `c`, join into
      the rest of `c` from `start`. */
  lemma {:induction false} ServedFrom(c: seq<IndexEntry>, start: int, size: int, fetch: ChunkRequest -> seq<IndexEntry>)
    requires size > 0 && 0 <= start < |c|
    requires forall o :: start <= o < |c| ==> fetch(ChunkRequest(o, size)) == c[o..if o + size < |c| then o + size else |c|]
    ensures Flatten(Gather(Requests(Range(start, |c|, size), size), fetch)) == c[start..]
    decreases |c| - start
  {
    ListingStep(start, |c|, size, fetch);
    var next := if start + size < |c| then start + size else |c|;
    assert fetch(ChunkRequest(start, size)) == c[start..next];
    if start + size < |c| {
      ServedFrom(c, start + size, size, fetch);
    } else {
      assert Range(start + size, |c|, size) == [];
      assert c[next..] == [];
    }
    SliceSplit(c, start, next);
  }

  /** A suffix is a slice followed by the suffix after it. */
  lemma SliceSplit(c: seq<IndexEntry>, a: int, b: int)
    requires 0 <= a <= b <= |c|
    ensures c[a..] == c[a..b] + c[b..]
  {
  }

  /** When the server answers every request from one collection of `|c|`
      entries, the listing is that collection, in order and complete. */
  lemma ListingIsCollection(c: seq<IndexEntry>, size: int, fetch: ChunkRequest -> seq<IndexEntry>)
    requires size > 0
    requires forall q :: fetch(q) == Serve(c, q)
    ensures Flatten(Gather(Requests(Offsets(|c|, size), size), fetch)) == c
  {
    if |c| > 0 {
      forall o | 0 <= o < |c|
        ensures fetch(ChunkRequest(o, size)) == c[o..if o + size < |c| then o + size else |c|]
      {
        assert fetch(ChunkRequest(o, size)) == Serve(c, ChunkRequest(o, size));
      }
      ServedFrom(c, 0, size, fetch);
    } else {
      assert Offsets(|c|, size) == [];
    }
  }

  // ---- The imperative steps of read_pokemons ----

  /** The loop that queues one request per offset of
      `range(0, total, size)`. */
  method PlanChunks(total: int, size: int) returns (tasks: seq<ChunkRequest>)
    requires size != 0
    ensures tasks == Requests(Offsets(total, size), size)
  {
    tasks := [];
    var offset := 0;
    while (size > 0 && offset < total) || (size < 0 && offset > total)
      invariant tasks + Requests(Range(offset, total, size), size) == Requests(Offsets(total, size), size)
      decreases if size > 0 then total - offset else offset - total
    {
      var queued := Requests(Range(offset, total, size), size);
      assert queued == [ChunkRequest(offset, size)] + Requests(Range(offset + size, total, size), size);
      tasks := tasks + [ChunkRequest(offset, size)];
      offset := offset + size;
    }
  }

  /** The loop that extends the listing with each chunk in turn. */
  method Collect(chunks: seq<seq<IndexEntry>>) returns (pokemons: seq<IndexEntry>)
    ensures pokemons == Flatten(chunks)
  {
    pokemons := [];
    for i := 0 to |chunks|
      invariant pokemons == Flatten(chunks[..i])
    {
      assert chunks[..i + 1][..i] == chunks[..i];
      pokemons := pokemons + chunks[i];
    }
    assert chunks[..|chunks|] == chunks;
  }

  /** `read_pokemons` once the total is known: the requests, their
      responses in request order, joined.  A chunk size of 0 is the
      error `range` raises. */
  method ReadPokemons(total: int, size: int, fetch: ChunkRequest -> seq<IndexEntry>) returns (r: Result<seq<IndexEntry>>)
    ensures size == 0 <==> r.Failure?
    ensures size != 0 ==> r == Success(Flatten(Gather(Requests(Offsets(total, size), size), fetch)))
  {
    if size == 0 {
      return Failure("range() arg 3 must not be zero");
    }
    var tasks := PlanChunks(total, size);
    var chunks := Gather(tasks, fetch);
    var pokemons := Collect(chunks);
    return Success(pokemons);
  }
}
