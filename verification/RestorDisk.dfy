/** The disk layer of restor: dread and dwrite of restor.c over a cache of three blocks. */
module RestorDisk {

  /** A disk block of 512 bytes, as 256 words of 16 bits. */
  type Block = seq<int>

  ghost predicate IsBlock(b: Block) {
    |b| == 256 && forall i :: 0 <= i < 256 ==> 0 <= b[i] < 0x1_0000
  }

  type Device = map<int, Block>

  datatype Slot = Slot(bno: int, time: int, block: Block)

  /** Each slot in use has a current copy of its block, and no block has two slots. Slots that
      were never used have block number 0, the boot block, which this layer does not touch. */
  ghost predicate Current(dev: Device, slots: seq<Slot>) {
    && |slots| == 3
    && (forall i :: 0 <= i < 3 && slots[i].bno != 0 ==> slots[i].bno in dev && slots[i].block == dev[slots[i].bno])
    && (forall i, j :: 0 <= i < j < 3 && slots[i].bno != 0 ==> slots[i].bno != slots[j].bno)
  }

  /** The slots that dread has looked at after i steps, beginning with the one after first. */
  predicate Seen(first: int, i: int, k: int) {
    (k - first + 2) % 3 < i
  }

  lemma SlotIs(dev: Device, slots: seq<Slot>, k: int)
    requires Current(dev, slots) && 0 <= k < 3 && slots[k].bno != 0
    ensures slots[k].bno in dev && slots[k].block == dev[slots[k].bno]
  {
  }

  lemma Touch(dev: Device, slots: seq<Slot>, k: int, t: int)
    requires Current(dev, slots) && 0 <= k < 3
    ensures Current(dev, slots[k := slots[k].(time := t)])
  {
  }

  lemma Refill(dev: Device, slots: seq<Slot>, k: int, t: int, bno: int)
    requires Current(dev, slots) && 0 <= k < 3 && bno in dev
    requires forall i :: 0 <= i < 3 ==> slots[i].bno != bno
    ensures Current(dev, slots[k := Slot(bno, t, dev[bno])])
  {
  }

  class Disk {
    var dev: Device
    const cache: array<Slot>
    var curcache: int

    ghost predicate Valid()
      reads this, cache
    {
      cache.Length == 3 && 0 <= curcache < 3 && Current(dev, cache[..])
    }

    constructor (device: Device)
      ensures Valid() && dev == device && fresh(cache)
    {
      dev, curcache := device, 0;
      cache := new Slot[3](_ => Slot(0, 0, []));
    }

    method Dwrite(bno: int, b: Block)
      requires Valid() && bno in dev && bno != 0
      modifies this, cache
      ensures Valid() && dev == old(dev)[bno := b]
    {
      var i := 0;
      while i < 3
        invariant 0 <= i <= 3 && dev == old(dev) && 0 <= curcache < 3
        invariant Current(dev, cache[..])
        invariant forall j :: 0 <= j < i ==> cache[j].bno != bno
      {
        if cache[i].bno == bno {
          cache[i] := cache[i].(block := b, time := 0);
          break;
        } else {
          cache[i] := cache[i].(time := cache[i].time + 1);
        }
        i := i + 1;
      }
      dev := dev[bno := b];
    }

    method Dread(bno: int) returns (b: Block)
      requires Valid() && bno in dev && bno != 0
      modifies this`curcache, cache
      ensures Valid() && b == dev[bno]
    {
      hide Current;
      var i, j := 0, 0;
      ghost var first := curcache;
      while i < 3
        invariant 0 <= i <= 3 && 0 <= j < 3 && curcache == (first + i) % 3 && 0 <= first < 3
        invariant Current(dev, cache[..])
        invariant forall k :: 0 <= k < 3 && Seen(first, i, k) ==> cache[k].bno != bno
      {
        curcache := if curcache + 1 >= 3 then 0 else curcache + 1;
        if cache[curcache].bno == bno {
          b := cache[curcache].block;
          SlotIs(dev, cache[..], curcache);
          Touch(dev, cache[..], curcache, 0);
          cache[curcache] := cache[curcache].(time := 0);
          return;
        }
        Touch(dev, cache[..], curcache, cache[curcache].time + 1);
        cache[curcache] := cache[curcache].(time := cache[curcache].time + 1);
        if cache[j].time < cache[curcache].time {
          j := curcache;
        }
        i := i + 1;
      }
      ghost var was := cache[..];
      Refill(dev, was, j, 0, bno);
      cache[j] := cache[j].(block := dev[bno]);
      b := cache[j].block;
      cache[j] := cache[j].(time := 0, bno := bno);
      assert cache[..] == was[j := Slot(bno, 0, dev[bno])];
    }
  }
}
