/** CCBoot increment chains: two-pass sector resolution over layers (vhd/chain.rs). */
module ChainedVhd {
  import opened Bytes
  import opened Wrappers
  import opened Store
  import opened BlockMap
  import opened VhdFormat
  import opened VhdWriter
  import opened DynamicVhd
  import Flatten

  /** A base overlaid by increment layers, newest first. */
  datatype Chain = Chain(overlays: seq<Vhd>, base: BackingStore, virtualSize: u64) {
    predicate Valid() {
      && virtualSize == |base.bytes|
      && forall k :: 0 <= k < |overlays| ==> overlays[k].Valid()
    }
  }

  /** `ChainedVhd::open`: layers are opened in reverse file order, so the newest comes first. */
  method Open(base: BackingStore, increments: seq<seq<byte>>) returns (r: Result<Chain, IoError>)
    requires |base.bytes| < U64_SPAN
    ensures r.Ok? <==> forall k :: 0 <= k < |increments| ==>
                         OpenSpec(increments[k]).Ok? && OpenSpec(increments[k]).value.virtualSize == |base.bytes|
    ensures r.Ok? ==> && r.value.Valid() && r.value.base == base && |r.value.overlays| == |increments|
                      && forall k :: 0 <= k < |increments| ==>
                           Ok(r.value.overlays[k]) == OpenSpec(increments[|increments| - 1 - k])
  {
    var n := |increments|;
    var overlays: seq<Vhd> := [];
    for i := 0 to n
      invariant |overlays| == i
      invariant forall k :: 0 <= k < i ==>
                  overlays[k].Valid() && overlays[k].virtualSize == |base.bytes| && Ok(overlays[k]) == OpenSpec(increments[n - 1 - k])
    {
      var layer := DynamicVhd.Open(increments[n - 1 - i]);
      if layer.Err? {
        return Err(layer.error);
      }
      if layer.value.virtualSize != |base.bytes| {
        return Err(InvalidData);
      }
      overlays := overlays + [layer.value];
    }
    forall k | 0 <= k < n
      ensures OpenSpec(increments[k]).Ok? && OpenSpec(increments[k]).value.virtualSize == |base.bytes|
    {
      assert Ok(overlays[n - 1 - k]) == OpenSpec(increments[n - 1 - (n - 1 - k)]);
    }
    r := Ok(Chain(overlays, base, |base.bytes|));
  }

  // ----- resolution of one sector -----

  datatype Pass = Present | Stored

  /** What one layer answers in one pass: is the sector here, and at which file offset? */
  function Answer(layer: Vhd, pass: Pass, sector: nat): Result<Option<nat>, IoError>
    requires layer.Valid()
  {
    if pass.Present? then layer.SectorOffset(sector) else layer.BlockSectorOffset(sector)
  }

  /** The newest layer from index `i` on that has the sector, and its offset there. */
  function Probe(layers: seq<Vhd>, pass: Pass, sector: nat, i: nat): (r: Result<Option<(nat, nat)>, IoError>)
    requires i <= |layers| && forall k :: 0 <= k < |layers| ==> layers[k].Valid()
    ensures r.Ok? && r.value.Some? ==> i <= r.value.value.0 < |layers|
    decreases |layers| - i
  {
    if i == |layers| then Ok(None)
    else
      match Answer(layers[i], pass, sector)
      case Err(e) => Err(e)
      case Ok(Some(off)) => Ok(Some((i, off)))
      case Ok(None) => Probe(layers, pass, sector, i + 1)
  }

  /** The layer that serves a sector, if any: a set bit anywhere beats a merely stored block. */
  function Resolve(layers: seq<Vhd>, sector: nat): (r: Result<Option<(nat, nat)>, IoError>)
    requires forall k :: 0 <= k < |layers| ==> layers[k].Valid()
    ensures r.Ok? && r.value.Some? ==> 0 <= r.value.value.0 < |layers|
  {
    var first := Probe(layers, Present, sector, 0);
    if first.Err? || first.value.Some? then first else Probe(layers, Stored, sector, 0)
  }

  function BaseByte(base: BackingStore, p: nat): Result<byte, IoError> {
    if base.Readable(p, 1) then Ok(base.bytes[p]) else Err(ReadFault)
  }

  /** The byte at `p`, given which layer serves its sector. */
  function Serve(c: Chain, hit: Result<Option<(nat, nat)>, IoError>, p: nat): Result<byte, IoError>
    requires hit.Ok? && hit.value.Some? ==> hit.value.value.0 < |c.overlays|
  {
    match hit
    case Err(e) => Err(e)
    case Ok(None) => BaseByte(c.base, p)
    case Ok(Some(at)) => FileByte(c.overlays[at.0].file, at.1 + p % SECTOR)
  }

  /** The byte a chain read returns for virtual position `p`. */
  function ByteAt(c: Chain, p: nat): Result<byte, IoError>
    requires c.Valid()
  {
    Serve(c, Resolve(c.overlays, p / SECTOR), p)
  }

  // ----- the reader -----

  /** One pass over the layers for one sector, as the source loops over them. */
  method RunPass(layers: seq<Vhd>, pass: Pass, sector: nat) returns (r: Result<Option<(nat, nat)>, IoError>)
    requires forall k :: 0 <= k < |layers| ==> layers[k].Valid()
    ensures r == Probe(layers, pass, sector, 0)
  {
    for i := 0 to |layers|
      invariant Probe(layers, pass, sector, 0) == Probe(layers, pass, sector, i)
    {
      var answer := Answer(layers[i], pass, sector);
      if answer.Err? {
        return Err(answer.error);
      }
      if answer.value.Some? {
        return Ok(Some((i, answer.value.value)));
      }
    }
    r := Ok(None);
  }

  /** The sector's bytes from the layer that serves it. */
  method Fetch(c: Chain, hit: Result<Option<(nat, nat)>, IoError>, pos: nat, take: nat) returns (r: Result<seq<byte>, IoError>)
    requires hit.Ok? && hit.value.Some? ==> hit.value.value.0 < |c.overlays|
    requires 0 < take && pos % SECTOR + take <= SECTOR
    ensures r.Ok? <==> forall p :: pos <= p < pos + take ==> Serve(c, hit, p).Ok?
    ensures r.Ok? ==> |r.value| == take && forall k :: 0 <= k < take ==> Ok(r.value[k]) == Serve(c, hit, pos + k)
  {
    match hit {
      case Err(e) =>
        assert Serve(c, hit, pos).Err?;
        r := Err(e);
      case Ok(Some(at)) =>
        r := FetchLayer(c, at, pos, take);
      case Ok(None) =>
        r := FetchBase(c, pos, take);
    }
  }

  lemma WithinSector(pos: nat, p: nat)
    requires pos <= p && pos % SECTOR + (p - pos) < SECTOR
    ensures p % SECTOR == pos % SECTOR + (p - pos)
  {
  }

  method FetchLayer(c: Chain, at: (nat, nat), pos: nat, take: nat) returns (r: Result<seq<byte>, IoError>)
    requires at.0 < |c.overlays| && 0 < take && pos % SECTOR + take <= SECTOR
    ensures r.Ok? <==> forall p :: pos <= p < pos + take ==> Serve(c, Ok(Some(at)), p).Ok?
    ensures r.Ok? ==> |r.value| == take && forall k :: 0 <= k < take ==> Ok(r.value[k]) == Serve(c, Ok(Some(at)), pos + k)
  {
    r := ReadExact(c.overlays[at.0].file, at.1 + pos % SECTOR, take);
    forall p | pos <= p < pos + take
      ensures p % SECTOR == pos % SECTOR + (p - pos)
    {
      WithinSector(pos, p);
    }
    if r.Err? {
      assert Serve(c, Ok(Some(at)), pos + take - 1).Err?;
    }
  }

  method FetchBase(c: Chain, pos: nat, take: nat) returns (r: Result<seq<byte>, IoError>)
    requires 0 < take
    ensures r.Ok? <==> forall p :: pos <= p < pos + take ==> Serve(c, Ok(None), p).Ok?
    ensures r.Ok? ==> |r.value| == take && forall k :: 0 <= k < take ==> Ok(r.value[k]) == Serve(c, Ok(None), pos + k)
  {
    r := c.base.Read(pos, take);
    forall p | pos <= p < pos + take
      ensures Serve(c, Ok(None), p) == if p < |c.base.bytes| && p !in c.base.faulty then Ok(c.base.bytes[p]) else Err(ReadFault)
    {
      assert c.base.Readable(p, 1) <==> p < |c.base.bytes| && p !in c.base.faulty;
    }
    assert Serve(c, Ok(None), pos + take - 1).Ok? ==> pos + take <= |c.base.bytes|;
  }

  /** Read the part of one sector that falls in the range. */
  method ReadSector(c: Chain, pos: nat, take: nat) returns (r: Result<seq<byte>, IoError>)
    requires c.Valid() && 0 < take && pos % SECTOR + take <= SECTOR
    ensures r.Ok? <==> forall p :: pos <= p < pos + take ==> ByteAt(c, p).Ok?
    ensures r.Ok? ==> |r.value| == take && forall k :: 0 <= k < take ==> Ok(r.value[k]) == ByteAt(c, pos + k)
  {
    var sector := pos / SECTOR;
    var hit := RunPass(c.overlays, Present, sector);
    if hit.Ok? && hit.value.None? {
      hit := RunPass(c.overlays, Stored, sector);
    }
    forall p | pos <= p < pos + take
      ensures ByteAt(c, p) == Serve(c, hit, p)
    {
      assert p / SECTOR == sector;
    }
    r := Fetch(c, hit, pos, take);
  }

  /** `ChainedVhd::read_at`. */
  method ReadAt(c: Chain, offset: u64, buf: array<byte>) returns (r: Result<Unit, IoError>)
    requires c.Valid()
    modifies buf
    ensures offset + buf.Length > c.virtualSize ==> r == Err(InvalidData) && buf[..] == old(buf[..])
    ensures offset + buf.Length <= c.virtualSize ==>
              (r.Ok? <==> forall p :: offset <= p < offset + buf.Length ==> ByteAt(c, p).Ok?)
    ensures r.Ok? ==> forall k :: 0 <= k < buf.Length ==> Ok(buf[k]) == ByteAt(c, offset + k)
  {
    if offset + buf.Length >= U64_SPAN {
      return Err(InvalidData);
    }
    if offset + buf.Length > c.virtualSize {
      return Err(InvalidData);
    }
    var pos: nat, done: nat := offset, 0;
    while done < buf.Length
      invariant done <= buf.Length && pos == offset + done
      invariant forall k :: 0 <= k < done ==> Ok(buf[k]) == ByteAt(c, offset + k)
    {
      var take := Min(SECTOR - pos % SECTOR, buf.Length - done);
      var read := ReadSector(c, pos, take);
      if read.Err? {
        return Err(read.error);
      }
      CopyInto(buf, done, read.value);
      pos, done := pos + take, done + take;
    }
    forall p | offset <= p < offset + buf.Length
      ensures ByteAt(c, p).Ok?
    {
      assert Ok(buf[p - offset]) == ByteAt(c, offset + (p - offset));
    }
    r := Ok(Done);
  }

  // ----- what the two passes mean -----

  /** The layer's BAT reaches `sector`. */
  predicate Covers(layer: Vhd, sector: nat)
    requires layer.Valid()
  {
    layer.BlockIndex(sector) < |layer.bat|
  }

  predicate HasBlock(layer: Vhd, sector: nat)
    requires layer.Valid()
  {
    Covers(layer, sector) && layer.bat[layer.BlockIndex(sector)] != HOLE
  }

  /** The layer stores the block and marks the sector as written. */
  predicate HasSector(layer: Vhd, sector: nat)
    requires layer.Valid()
  {
    layer.SectorOffset(sector).Ok? && layer.SectorOffset(sector).value.Some?
  }

  /** Layers whose BATs cover the sector, so that no probe fails. */
  ghost predicate Covered(layers: seq<Vhd>, sector: nat) {
    forall k :: 0 <= k < |layers| ==> layers[k].Valid() && Covers(layers[k], sector)
  }

  ghost predicate Has(layer: Vhd, pass: Pass, sector: nat)
    requires layer.Valid()
  {
    if pass.Present? then HasSector(layer, sector) else HasBlock(layer, sector)
  }

  lemma AnswerIff(layer: Vhd, pass: Pass, sector: nat)
    requires layer.Valid() && Covers(layer, sector)
    ensures Answer(layer, pass, sector) == Ok(if Has(layer, pass, sector) then Some(layer.DataOffset(sector)) else None)
  {
  }

  lemma {:induction false} ProbeFindsNewest(layers: seq<Vhd>, pass: Pass, sector: nat, i: nat)
    requires Covered(layers, sector) && i <= |layers|
    ensures var r := Probe(layers, pass, sector, i);
            && r.Ok?
            && (r.value.None? ==> forall k :: i <= k < |layers| ==> !Has(layers[k], pass, sector))
            && (r.value.Some? ==> && Has(layers[r.value.value.0], pass, sector)
                                  && r.value.value.1 == layers[r.value.value.0].DataOffset(sector)
                                  && forall k :: i <= k < r.value.value.0 ==> !Has(layers[k], pass, sector))
    decreases |layers| - i
  {
    if i < |layers| {
      AnswerIff(layers[i], pass, sector);
      ProbeFindsNewest(layers, pass, sector, i + 1);
    }
  }

  /** Layer `k` is the one the documentation says must serve the sector. */
  ghost predicate Owner(layers: seq<Vhd>, sector: nat, k: nat)
    requires Covered(layers, sector)
  {
    && k < |layers|
    && if exists j :: 0 <= j < |layers| && HasSector(layers[j], sector)
       then HasSector(layers[k], sector) && forall j :: 0 <= j < k ==> !HasSector(layers[j], sector)
       else HasBlock(layers[k], sector) && forall j :: 0 <= j < k ==> !HasBlock(layers[j], sector)
  }

  lemma HasSectorHasBlock(layer: Vhd, sector: nat)
    requires layer.Valid() && HasSector(layer, sector)
    ensures HasBlock(layer, sector)
  {
  }

  /** The first layer the pass finds. */
  ghost predicate First(layers: seq<Vhd>, pass: Pass, sector: nat, k: nat)
    requires Covered(layers, sector)
  {
    k < |layers| && Has(layers[k], pass, sector) && forall j :: 0 <= j < k ==> !Has(layers[j], pass, sector)
  }

  ghost predicate Nowhere(layers: seq<Vhd>, pass: Pass, sector: nat)
    requires Covered(layers, sector)
  {
    forall j :: 0 <= j < |layers| ==> !Has(layers[j], pass, sector)
  }

  /** A pass ends at its first layer, and finds nothing exactly if there is none. */
  lemma ProbeEnds(layers: seq<Vhd>, pass: Pass, sector: nat)
    requires Covered(layers, sector)
    ensures var r := Probe(layers, pass, sector, 0);
            && r.Ok?
            && (r.value.None? <==> Nowhere(layers, pass, sector))
            && (r.value.Some? ==> First(layers, pass, sector, r.value.value.0) && r.value.value.1 == layers[r.value.value.0].DataOffset(sector))
  {
    ProbeFindsNewest(layers, pass, sector, 0);
  }

  lemma FirstUnique(layers: seq<Vhd>, pass: Pass, sector: nat, j: nat, k: nat)
    requires Covered(layers, sector) && First(layers, pass, sector, j) && First(layers, pass, sector, k)
    ensures j == k
  {
  }

  /** The owner is what the first pass ends at, or else what the second does. */
  lemma OwnerIsFirst(layers: seq<Vhd>, sector: nat, k: nat)
    requires Covered(layers, sector)
    ensures Owner(layers, sector, k)
       <==> if Nowhere(layers, Present, sector) then First(layers, Stored, sector, k) else First(layers, Present, sector, k)
  {
    assert Nowhere(layers, Present, sector) <==> forall j :: 0 <= j < |layers| ==> !HasSector(layers[j], sector);
  }

  lemma OwnerServes(layers: seq<Vhd>, sector: nat, k: nat)
    requires Covered(layers, sector) && Owner(layers, sector, k)
    ensures Resolve(layers, sector) == Ok(Some((k, layers[k].DataOffset(sector))))
  {
    OwnerIsFirst(layers, sector, k);
    var pass := if Nowhere(layers, Present, sector) then Stored else Present;
    ProbeEnds(layers, Present, sector);
    ProbeEnds(layers, pass, sector);
    FirstUnique(layers, pass, sector, k, Probe(layers, pass, sector, 0).value.value.0);
  }

  lemma NoOwnerServesBase(layers: seq<Vhd>, sector: nat)
    requires Covered(layers, sector) && forall k :: 0 <= k < |layers| ==> !HasBlock(layers[k], sector)
    ensures Resolve(layers, sector) == Ok(None)
  {
    ProbeEnds(layers, Present, sector);
    ProbeEnds(layers, Stored, sector);
    assert Nowhere(layers, Stored, sector);
  }

  lemma FindOwner(layers: seq<Vhd>, sector: nat) returns (k: nat)
    requires Covered(layers, sector) && exists j :: 0 <= j < |layers| && HasBlock(layers[j], sector)
    ensures Owner(layers, sector, k)
  {
    var pass := if Nowhere(layers, Present, sector) then Stored else Present;
    ProbeEnds(layers, pass, sector);
    var j :| 0 <= j < |layers| && HasBlock(layers[j], sector);
    assert Has(layers[j], Stored, sector);
    k := Probe(layers, pass, sector, 0).value.value.0;
    OwnerIsFirst(layers, sector, k);
  }

  /**
   * A chain read takes each byte from the newest layer with the bit set, else from the newest
   * layer with the block stored, else (`k` past the last layer) from the base.
   */
  lemma ReadsOwner(c: Chain, p: nat) returns (k: nat)
    requires c.Valid() && Covered(c.overlays, p / SECTOR)
    ensures k < |c.overlays| ==>
              && Owner(c.overlays, p / SECTOR, k)
              && ByteAt(c, p) == FileByte(c.overlays[k].file, c.overlays[k].DataOffset(p / SECTOR) + p % SECTOR)
    ensures k >= |c.overlays| ==>
              && (forall j :: 0 <= j < |c.overlays| ==> !HasBlock(c.overlays[j], p / SECTOR))
              && ByteAt(c, p) == BaseByte(c.base, p)
  {
    if forall j :: 0 <= j < |c.overlays| ==> !HasBlock(c.overlays[j], p / SECTOR) {
      NoOwnerServesBase(c.overlays, p / SECTOR);
      k := |c.overlays|;
    } else {
      k := FindOwner(c.overlays, p / SECTOR);
      OwnerServes(c.overlays, p / SECTOR, k);
    }
  }

  // ----- the two passes against nesting the layers one at a time -----

  /** The chain `[layer]` over whatever `below` reads. */
  function Over(layer: Vhd, below: nat -> Result<byte, IoError>, p: nat): Result<byte, IoError>
    requires layer.Valid()
  {
    match Resolve([layer], p / SECTOR)
    case Err(e) => Err(e)
    case Ok(None) => below(p)
    case Ok(Some(hit)) => FileByte(layer.file, hit.1 + p % SECTOR)
  }

  /** Each layer applied as its own one-layer chain over the next older one. */
  function Nested(layers: seq<Vhd>, base: BackingStore, p: nat): Result<byte, IoError>
    requires forall k :: 0 <= k < |layers| ==> layers[k].Valid()
  {
    if layers == [] then BaseByte(base, p)
    else
      var rest := layers[1..];
      Over(layers[0], (q: nat) => if forall k :: 0 <= k < |rest| ==> rest[k].Valid() then Nested(rest, base, q) else Err(InvalidData), p)
  }

  lemma SingleLayer(layer: Vhd, sector: nat)
    requires layer.Valid() && Covers(layer, sector)
    ensures Resolve([layer], sector) == Ok(if HasBlock(layer, sector) then Some((0, layer.DataOffset(sector))) else None)
  {
    assert Covered([layer], sector);
    ProbeFindsNewest([layer], Present, sector, 0);
    ProbeFindsNewest([layer], Stored, sector, 0);
  }

  /** Nesting serves a sector from the newest layer that stores its block, bit or no bit. */
  lemma {:induction false} NestedReadsNewestBlock(layers: seq<Vhd>, base: BackingStore, p: nat, k: nat)
    requires Covered(layers, p / SECTOR) && k <= |layers|
    requires forall j :: 0 <= j < k ==> !HasBlock(layers[j], p / SECTOR)
    requires k < |layers| ==> HasBlock(layers[k], p / SECTOR)
    ensures Nested(layers, base, p)
         == if k == |layers| then BaseByte(base, p)
            else FileByte(layers[k].file, layers[k].DataOffset(p / SECTOR) + p % SECTOR)
  {
    if layers != [] {
      assert Covers(layers[0], p / SECTOR);
      SingleLayer(layers[0], p / SECTOR);
      if k > 0 {
        var rest := layers[1..];
        assert Covered(rest, p / SECTOR);
        NestedReadsNewestBlock(rest, base, p, k - 1);
      }
    }
  }

  /** The bitmap question that separates the two readings, at one sector. */
  ghost predicate BitsDecideNothing(layers: seq<Vhd>, sector: nat)
    requires Covered(layers, sector)
  {
    forall k :: 0 <= k < |layers| && HasBlock(layers[k], sector) && !HasSector(layers[k], sector)
                && (forall j :: 0 <= j < k ==> !HasBlock(layers[j], sector)) ==>
      forall j :: k < j < |layers| ==> !HasSector(layers[j], sector)
  }

  /** The serving layer under nesting. */
  ghost predicate NestedOwner(layers: seq<Vhd>, sector: nat, k: nat)
    requires Covered(layers, sector)
  {
    k < |layers| && HasBlock(layers[k], sector) && forall j :: 0 <= j < k ==> !HasBlock(layers[j], sector)
  }

  lemma OwnersAgree(layers: seq<Vhd>, sector: nat, k: nat, n: nat)
    requires Covered(layers, sector) && Owner(layers, sector, k) && NestedOwner(layers, sector, n)
    ensures (forall j :: 0 <= j < |layers| ==> (Owner(layers, sector, j) <==> NestedOwner(layers, sector, j))) <==> k == n
  {
    forall j | 0 <= j < |layers|
      ensures Owner(layers, sector, j) <==> j == k
      ensures NestedOwner(layers, sector, j) <==> j == n
    {
      OwnerUnique(layers, sector, k, j);
    }
  }

  lemma DecideNothingIff(layers: seq<Vhd>, sector: nat, k: nat, n: nat)
    requires Covered(layers, sector) && Owner(layers, sector, k) && NestedOwner(layers, sector, n)
    ensures BitsDecideNothing(layers, sector) <==> k == n
  {
    OwnerHasBlock(layers, sector, k);
    OwnerOrder(layers, sector, k, n);
  }

  /**
   * The two-pass rule and nesting choose the same layer exactly when the newest stored block
   * has the bit set or no older layer has it set.
   */
  lemma SameOwnerIff(layers: seq<Vhd>, sector: nat)
    requires Covered(layers, sector)
    ensures BitsDecideNothing(layers, sector)
       <==> forall k :: 0 <= k < |layers| ==> (Owner(layers, sector, k) <==> NestedOwner(layers, sector, k))
  {
    if exists j :: 0 <= j < |layers| && HasBlock(layers[j], sector) {
      var k := FindOwner(layers, sector);
      var n := FindNewestBlock(layers, sector);
      OwnersAgree(layers, sector, k, n);
      DecideNothingIff(layers, sector, k, n);
    } else {
      forall j | 0 <= j < |layers|
        ensures !Owner(layers, sector, j)
      {
        OwnerHasBlock(layers, sector, j);
      }
    }
  }

  lemma FindNewestBlock(layers: seq<Vhd>, sector: nat) returns (n: nat)
    requires Covered(layers, sector) && exists j :: 0 <= j < |layers| && HasBlock(layers[j], sector)
    ensures NestedOwner(layers, sector, n)
  {
    ProbeFindsNewest(layers, Stored, sector, 0);
    var j :| 0 <= j < |layers| && HasBlock(layers[j], sector);
    assert Has(layers[j], Stored, sector);
    n := Probe(layers, Stored, sector, 0).value.value.0;
  }

  lemma OwnerHasBlock(layers: seq<Vhd>, sector: nat, k: nat)
    requires Covered(layers, sector) && k < |layers|
    ensures Owner(layers, sector, k) ==> HasBlock(layers[k], sector)
  {
    if HasSector(layers[k], sector) {
      HasSectorHasBlock(layers[k], sector);
    }
  }

  lemma OwnerUnique(layers: seq<Vhd>, sector: nat, j: nat, k: nat)
    requires Covered(layers, sector)
    ensures Owner(layers, sector, j) && Owner(layers, sector, k) ==> j == k
  {
  }

  /** When the two owners differ, the newest stored block lacks the bit and an older layer has it. */
  lemma OwnerOrder(layers: seq<Vhd>, sector: nat, k: nat, n: nat)
    requires Covered(layers, sector) && Owner(layers, sector, k) && NestedOwner(layers, sector, n)
    ensures n <= k
    ensures k == n <==> HasSector(layers[n], sector) || forall j :: n < j < |layers| ==> !HasSector(layers[j], sector)
  {
    OwnerHasBlock(layers, sector, k);
  }

  /** Where the bitmaps decide nothing, a chain is its layers applied one at a time. */
  lemma DecideNothingNests(c: Chain, p: nat)
    requires c.Valid() && Covered(c.overlays, p / SECTOR) && BitsDecideNothing(c.overlays, p / SECTOR)
    ensures ByteAt(c, p) == Nested(c.overlays, c.base, p)
  {
    var layers, sector := c.overlays, p / SECTOR;
    if forall k :: 0 <= k < |layers| ==> !HasBlock(layers[k], sector) {
      NoOwnerServesBase(layers, sector);
      NestedReadsNewestBlock(layers, c.base, p, |layers|);
    } else {
      var k := OneOwner(layers, sector);
      OwnerServes(layers, sector, k);
      NestedReadsNewestBlock(layers, c.base, p, k);
    }
  }

  lemma OneOwner(layers: seq<Vhd>, sector: nat) returns (k: nat)
    requires Covered(layers, sector) && BitsDecideNothing(layers, sector)
    requires exists j :: 0 <= j < |layers| && HasBlock(layers[j], sector)
    ensures Owner(layers, sector, k) && NestedOwner(layers, sector, k)
  {
    k := FindOwner(layers, sector);
    var n := FindNewestBlock(layers, sector);
    DecideNothingIff(layers, sector, k, n);
  }

  /** With full bitmaps in every newer layer they decide nothing. */
  lemma FullBitmapsNest(c: Chain, p: nat)
    requires c.Valid() && Covered(c.overlays, p / SECTOR)
    requires forall k :: 0 <= k < |c.overlays| - 1 && HasBlock(c.overlays[k], p / SECTOR) ==> HasSector(c.overlays[k], p / SECTOR)
    ensures ByteAt(c, p) == Nested(c.overlays, c.base, p)
  {
    DecideNothingNests(c, p);
  }

  /**
   * Where they decide something, nesting reads the newest layer that stores the block, and the chain an
   * older layer that has the bit set.
   */
  lemma DecideSomethingParts(c: Chain, p: nat) returns (n: nat, k: nat)
    requires c.Valid() && Covered(c.overlays, p / SECTOR) && !BitsDecideNothing(c.overlays, p / SECTOR)
    ensures n < k < |c.overlays| && NestedOwner(c.overlays, p / SECTOR, n) && Owner(c.overlays, p / SECTOR, k)
    ensures !HasSector(c.overlays[n], p / SECTOR) && HasSector(c.overlays[k], p / SECTOR)
    ensures Nested(c.overlays, c.base, p)
         == FileByte(c.overlays[n].file, c.overlays[n].DataOffset(p / SECTOR) + p % SECTOR)
    ensures ByteAt(c, p) == FileByte(c.overlays[k].file, c.overlays[k].DataOffset(p / SECTOR) + p % SECTOR)
  {
    n, k := OwnersPart(c.overlays, p / SECTOR);
    OwnerServes(c.overlays, p / SECTOR, k);
    NestedReadsNewestBlock(c.overlays, c.base, p, n);
  }

  lemma OwnersPart(layers: seq<Vhd>, sector: nat) returns (n: nat, k: nat)
    requires Covered(layers, sector) && !BitsDecideNothing(layers, sector)
    ensures n < k < |layers| && NestedOwner(layers, sector, n) && Owner(layers, sector, k)
    ensures !HasSector(layers[n], sector) && HasSector(layers[k], sector)
  {
    k := FindOwner(layers, sector);
    n := FindNewestBlock(layers, sector);
    DecideNothingIff(layers, sector, k, n);
    OwnerOrder(layers, sector, k, n);
  }

  /** One block of one sector: the given bit, and data of one value. */
  function OneSector(bit: byte, value: byte): Vhd {
    Vhd(Zeros(SECTOR) + Fill(SECTOR, value), SECTOR, SECTOR, SECTOR, [0], [Some([bit] + Zeros(SECTOR - 1))])
  }

  lemma SectorIsBlock(bs: nat)
    requires bs == SECTOR
    ensures BlockSizeOk(bs) && BitmapSize(bs) == SECTOR
  {
    assert IsPow2(2);
    assert IsPow2(8);
    assert IsPow2(32);
    assert IsPow2(128);
  }

  lemma OneSectorOk(v: Vhd, bit: byte, value: byte)
    requires v == OneSector(bit, value)
    ensures v.Valid() && Covers(v, 0) && HasBlock(v, 0) && v.DataOffset(0) == SECTOR
    ensures v.SectorInBlock(0) == 0 && v.BlockIndex(0) == 0 && v.bitmaps[0] == Some([bit] + Zeros(SECTOR - 1))
  {
    SectorIsBlock(v.blockSize);
    assert v.SlotOk(0);
  }

  lemma OneSectorByte(bit: byte, value: byte)
    ensures FileByte(OneSector(bit, value).file, SECTOR) == Ok(value)
  {
  }

  lemma FirstBit(bitmap: seq<byte>)
    requires bitmap != []
    ensures BitSet(bitmap, 0) <==> bitmap[0] >= 0x80
  {
    assert Pow2(7) == 128;
  }

  lemma FirstSectorBit(v: Vhd, bitmap: seq<byte>)
    requires v.Valid() && HasBlock(v, 0) && v.SectorInBlock(0) == 0 && v.BlockIndex(0) == 0 && bitmap != []
    requires v.bitmaps[0] == Some(bitmap)
    ensures HasSector(v, 0) <==> BitSet(bitmap, 0)
  {
  }

  /** The smallest chain on which the two differ: the newer layer's bit is clear, the older one's is set. */
  lemma TwoLayersDiffer(base: BackingStore)
    requires |base.bytes| == SECTOR
    ensures var c := Chain([OneSector(0, 1), OneSector(0x80, 2)], base, SECTOR);
            && c.Valid() && Covered(c.overlays, 0)
            && ByteAt(c, 0) == Ok(2) && Nested(c.overlays, c.base, 0) == Ok(1)
  {
    var c := Chain([OneSector(0, 1), OneSector(0x80, 2)], base, SECTOR);
    OneSectorOk(c.overlays[0], 0, 1);
    OneSectorOk(c.overlays[1], 0x80, 2);
    FirstBit([0] + Zeros(SECTOR - 1));
    FirstBit([0x80] + Zeros(SECTOR - 1));
    FirstSectorBit(c.overlays[0], [0] + Zeros(SECTOR - 1));
    FirstSectorBit(c.overlays[1], [0x80] + Zeros(SECTOR - 1));
    OneSectorByte(0, 1);
    OneSectorByte(0x80, 2);
    assert Owner(c.overlays, 0, 1);
    OwnerServes(c.overlays, 0, 1);
    NestedReadsNewestBlock(c.overlays, base, 0, 0);
  }

  // ----- flattening a chain -----

  /** The chain as a store to read from: what it cannot resolve cannot be read. */
  function AsStore(c: Chain): (store: BackingStore)
    requires c.Valid()
    ensures |store.bytes| == c.virtualSize
    ensures forall p :: 0 <= p < c.virtualSize ==> (p in store.faulty <==> ByteAt(c, p).Err?)
    ensures forall p :: 0 <= p < c.virtualSize && ByteAt(c, p).Ok? ==> store.bytes[p] == ByteAt(c, p).value
  {
    BackingStore(
      seq(c.virtualSize, p requires 0 <= p < c.virtualSize => if ByteAt(c, p).Ok? then ByteAt(c, p).value else 0),
      set p | 0 <= p < c.virtualSize && ByteAt(c, p).Err?)
  }

  /** Reading the store is reading the chain: the same ranges succeed, with the same bytes. */
  method ReadStore(c: Chain, offset: u64, buf: array<byte>) returns (r: Result<Unit, IoError>)
    requires c.Valid()
    modifies buf
    ensures r.Ok? <==> AsStore(c).Readable(offset, buf.Length)
    ensures r.Ok? ==> AsStore(c).Read(offset, buf.Length) == Ok(buf[..])
  {
    r := ReadAt(c, offset, buf);
    if r.Ok? {
      var store := AsStore(c);
      forall k | 0 <= k < buf.Length
        ensures offset + k !in store.faulty && buf[k] == store.bytes[offset + k]
      {
        assert Ok(buf[k]) == ByteAt(c, offset + k);
      }
      assert buf[..] == store.bytes[offset..offset + buf.Length];
    }
  }

  /** Every byte of the chain can be read. */
  predicate Resolves(c: Chain)
    requires c.Valid()
  {
    forall p :: 0 <= p < c.virtualSize ==> ByteAt(c, p).Ok?
  }

  /** An image of a chain that fits reads, everywhere, what the chain reads. */
  lemma FlattenPreservesChain(c: Chain, bs: nat, img: seq<byte>)
    requires c.Valid() && Resolves(c)
    requires BlockSizeOk(bs) && IsImage(img, AsStore(c).bytes, bs) && Fits(AsStore(c).bytes, bs)
    ensures OpenSpec(img).Ok? && OpenSpec(img).value.virtualSize == c.virtualSize
    ensures forall p :: 0 <= p < c.virtualSize ==> OpenSpec(img).value.ByteAt(p) == ByteAt(c, p)
  {
    Flatten.FlattenRoundTrip(AsStore(c).bytes, bs, img);
  }

  /**
   * `xboot flatten` on a chain: it succeeds exactly when every byte of the chain resolves and there are
   * fewer than 2^32 blocks, and up to 2040 GiB the output then reads, everywhere, what the chain reads.
   */
  method FlattenChain(c: Chain, stamp: Stamp) returns (r: Result<seq<byte>, IoError>)
    requires c.Valid() && stamp.Valid()
    ensures r.Ok? <==> DivCeil(c.virtualSize, DEFAULT_BLOCK_SIZE) < U32_SPAN && Resolves(c)
    ensures r.Ok? && c.virtualSize <= 2040 * GIB ==>
              && OpenSpec(r.value).Ok? && OpenSpec(r.value).value.virtualSize == c.virtualSize
              && forall p :: 0 <= p < c.virtualSize ==> OpenSpec(r.value).value.ByteAt(p) == ByteAt(c, p)
  {
    var store := AsStore(c);
    assert store.Readable(0, c.virtualSize) <==> Resolves(c);
    DefaultIsPow2();
    r := WriteDynamicVhd(store, DEFAULT_BLOCK_SIZE, stamp);
    if r.Ok? && c.virtualSize <= 2040 * GIB {
      FitsUpTo2040GiB(store.bytes);
      FlattenPreservesChain(c, DEFAULT_BLOCK_SIZE, r.value);
    }
  }
}
