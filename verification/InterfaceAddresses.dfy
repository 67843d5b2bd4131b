/**
 The interface addresses of Docs/WiFi/reference/wlan_hdd_main.c: a table with one MAC address for each
 persona, a bit mask of those handed out, and the generator that derives the table from a serial number.
 The number of personas (VOS_MAX_CONCURRENCY_PERSONA) is a parameter.
 */
module InterfaceAddresses {
  import opened Words

  const TWO_24 := 0x100_0000
  const TWO_32 := 0x1_0000_0000

  datatype Mac = Mac(b0: byte, b1: byte, b2: byte, b3: byte, b4: byte, b5: byte)

  predicate Distinct(s: seq<Mac>) {
    forall i, j :: 0 <= i < j < |s| ==> s[i] != s[j]
  }

  function FirstClear(mask: seq<bool>): (i: nat)
    ensures i <= |mask| && (forall j :: 0 <= j < i ==> mask[j]) && (i < |mask| ==> !mask[i])
  {
    if mask == [] || !mask[0] then 0 else 1 + FirstClear(mask[1..])
  }

  function FirstMatch(table: seq<Mac>, a: Mac): (i: nat)
    ensures i <= |table| && (forall j :: 0 <= j < i ==> table[j] != a) && (i < |table| ==> table[i] == a)
  {
    if table == [] || table[0] == a then 0 else 1 + FirstMatch(table[1..], a)
  }

  // ----- any sequence of calls -----

  datatype Call = Get | Release(a: Mac)

  /** The mask, and the addresses handed out and not given back. */
  datatype Pool = Pool(mask: seq<bool>, out: seq<Mac>)

  function GetMask(mask: seq<bool>): (r: seq<bool>)
    ensures |r| == |mask|
  {
    var i := FirstClear(mask);
    if i < |mask| then mask[i := true] else mask
  }

  function ReleaseMask(table: seq<Mac>, mask: seq<bool>, a: Mac): (r: seq<bool>)
    requires |mask| == |table|
    ensures |r| == |mask|
  {
    var i := FirstMatch(table, a);
    if i < |table| then mask[i := false] else mask
  }

  function Without(out: seq<Mac>, a: Mac): seq<Mac> {
    var i := FirstMatch(out, a);
    if i < |out| then out[..i] + out[i + 1..] else out
  }

  function Step(table: seq<Mac>, p: Pool, c: Call): (r: Pool)
    requires |p.mask| == |table|
    ensures |r.mask| == |table|
  {
    match c
    case Get =>
      var i := FirstClear(p.mask);
      Pool(GetMask(p.mask), if i < |table| then p.out + [table[i]] else p.out)
    case Release(a) => Pool(ReleaseMask(table, p.mask, a), Without(p.out, a))
  }

  function Run(table: seq<Mac>, p: Pool, calls: seq<Call>): (r: Pool)
    requires |p.mask| == |table|
    ensures |r.mask| == |table|
    decreases |calls|
  {
    if calls == [] then p else Run(table, Step(table, p, calls[0]), calls[1..])
  }

  function Fresh(table: seq<Mac>): (p: Pool)
    ensures |p.mask| == |table|
  {
    Pool(seq(|table|, i => false), [])
  }

  ghost predicate HasBit(table: seq<Mac>, mask: seq<bool>, a: Mac)
    requires |mask| == |table|
  {
    exists i :: 0 <= i < |table| && mask[i] && table[i] == a
  }

  /** Handed out are, once each, the addresses whose bit is set. */
  ghost predicate Consistent(table: seq<Mac>, p: Pool) {
    |p.mask| == |table| && Distinct(p.out) && forall a :: a in p.out <==> HasBit(table, p.mask, a)
  }

  lemma BitAfterGet(table: seq<Mac>, mask: seq<bool>, b: Mac)
    requires |mask| == |table|
    ensures HasBit(table, GetMask(mask), b)
            <==> HasBit(table, mask, b) || (FirstClear(mask) < |mask| && table[FirstClear(mask)] == b)
  {
    var i := FirstClear(mask);
    if HasBit(table, mask, b) {
      var j :| 0 <= j < |table| && mask[j] && table[j] == b;
      assert GetMask(mask)[j];
    }
    if i < |mask| {
      assert GetMask(mask)[i];
    }
  }

  lemma BitAfterRelease(table: seq<Mac>, mask: seq<bool>, a: Mac, b: Mac)
    requires |mask| == |table| && Distinct(table)
    ensures HasBit(table, ReleaseMask(table, mask, a), b) <==> a != b && HasBit(table, mask, b)
  {
    if a != b && HasBit(table, mask, b) {
      var j :| 0 <= j < |table| && mask[j] && table[j] == b;
      assert ReleaseMask(table, mask, a)[j];
    }
  }

  lemma GetKeepsConsistent(table: seq<Mac>, p: Pool)
    requires Distinct(table) && Consistent(table, p)
    ensures Consistent(table, Step(table, p, Get))
  {
    var i := FirstClear(p.mask);
    forall a ensures a in Step(table, p, Get).out <==> HasBit(table, GetMask(p.mask), a) {
      BitAfterGet(table, p.mask, a);
    }
    assert i < |table| ==> !HasBit(table, p.mask, table[i]);
  }

  lemma WithoutOne(out: seq<Mac>, a: Mac)
    requires Distinct(out)
    ensures Distinct(Without(out, a)) && a !in Without(out, a)
    ensures forall b :: b != a ==> (b in out <==> b in Without(out, a))
  {
    var i := FirstMatch(out, a);
    var r := Without(out, a);
    if i < |out| {
      assert forall k :: 0 <= k < |r| ==> r[k] == if k < i then out[k] else out[k + 1];
      forall b | b != a && b in out ensures b in r {
        var k :| 0 <= k < |out| && out[k] == b;
        assert r[if k < i then k else k - 1] == b;
      }
    }
  }

  lemma ReleaseKeepsConsistent(table: seq<Mac>, p: Pool, a: Mac)
    requires Distinct(table) && Consistent(table, p)
    ensures Consistent(table, Step(table, p, Release(a)))
  {
    hide Without, ReleaseMask, HasBit, Distinct;
    WithoutOne(p.out, a);
    forall b ensures b in Without(p.out, a) <==> HasBit(table, ReleaseMask(table, p.mask, a), b) {
      BitAfterRelease(table, p.mask, a, b);
    }
  }

  lemma {:induction false} RunKeepsConsistent(table: seq<Mac>, p: Pool, calls: seq<Call>)
    requires Distinct(table) && |p.mask| == |table| && Consistent(table, p)
    ensures Consistent(table, Run(table, p, calls))
    decreases |calls|
  {
    hide Consistent, Step;
    if calls != [] {
      match calls[0] {
        case Get => GetKeepsConsistent(table, p);
        case Release(a) => ReleaseKeepsConsistent(table, p, a);
      }
      RunKeepsConsistent(table, Step(table, p, calls[0]), calls[1..]);
    }
  }

  function Gets(n: nat): (calls: seq<Call>)
    ensures |calls| == n
  {
    if n == 0 then [] else [Get] + Gets(n - 1)
  }

  /** From a pool whose first k addresses are out, as many calls as there are others hand out those. */
  lemma {:induction false} GetsHandOutAll(table: seq<Mac>, k: nat)
    requires k <= |table|
    ensures Run(table, Pool(seq(|table|, i => i < k), table[..k]), Gets(|table| - k)).out == table
    decreases |table| - k
  {
    var p := Pool(seq(|table|, i => i < k), table[..k]);
    if k == |table| {
      assert table[..k] == table;
    } else {
      assert FirstClear(p.mask) == k by {
        assert !p.mask[k];
        assert forall i :: 0 <= i < k ==> p.mask[i];
      }
      assert p.mask[k := true] == seq(|table|, i => i < k + 1);
      assert table[..k] + [table[k]] == table[..k + 1];
      assert Gets(|table| - k)[1..] == Gets(|table| - k - 1);
      GetsHandOutAll(table, k + 1);
    }
  }

  /** Addresses that are out are pairwise different, whatever calls are made, exactly if the table's are. */
  lemma OutIsDistinctIffTableIs(table: seq<Mac>)
    ensures (forall calls :: Distinct(Run(table, Fresh(table), calls).out)) <==> Distinct(table)
  {
    if Distinct(table) {
      forall calls ensures Distinct(Run(table, Fresh(table), calls).out) {
        RunKeepsConsistent(table, Fresh(table), calls);
      }
    } else {
      GetsHandOutAll(table, 0);
      assert Fresh(table) == Pool(seq(|table|, i => i < 0), table[..0]);
      assert !Distinct(Run(table, Fresh(table), Gets(|table|)).out);
    }
  }

  // ----- the generator -----

  /** The address whose last three bytes are those of a serial number. */
  function Derived(mac: Mac, serial: u32): Mac {
    mac.(b3 := (serial / 0x1_0000) % 0x100, b4 := (serial / 0x100) % 0x100, b5 := serial % 0x100)
  }

  predicate SameVendor(a: Mac, b: Mac) {
    a.b0 == b.b0 && a.b1 == b.b1 && a.b2 == b.b2
  }

  function Low24(mac: Mac): (n: nat)
    ensures n < TWO_24
  {
    mac.b3 * 0x1_0000 + mac.b4 * 0x100 + mac.b5
  }

  lemma Low24OfDerived(mac: Mac, serial: u32)
    ensures Low24(Derived(mac, serial)) == serial % TWO_24 && SameVendor(Derived(mac, serial), mac)
  {
    var q := serial / 0x1_0000;
    assert (serial / 0x100) / 0x100 == q;
    assert serial % TWO_24 == (q % 0x100) * 0x1_0000 + serial % 0x1_0000;
  }

  /** The first serial number used, in the driver's 32-bit arithmetic. */
  function Start(serial: u32, personas: nat): u32 {
    (serial % TWO_24) * personas % TWO_32
  }

  /** Up to 256 personas the multiplication does not wrap; from 257 on it does for some serial number. */
  lemma NoWrapUpTo256(personas: nat)
    ensures (forall serial: u32 :: Start(serial, personas) == (serial % TWO_24) * personas) <==> personas <= 256
  {
    if personas <= 256 {
      forall serial: u32 ensures Start(serial, personas) == (serial % TWO_24) * personas {
        var s := serial % TWO_24;
        assert s * personas <= s * 256;
      }
    } else {
      var serial: u32 := TWO_24 - 1;
      assert serial % TWO_24 == serial;
      assert serial * personas >= serial * 257 >= TWO_32;
      assert Start(serial, personas) < TWO_32;
    }
  }

  /** What the generator leaves in the table from an index on. */
  predicate Generated(table: seq<Mac>, idx: nat, serial: u32, mac: Mac) {
    forall i :: idx <= i < |table| ==> table[i] == Derived(mac, (Start(serial, |table|) + (i - idx)) % TWO_32)
  }

  lemma LowerBits(x: nat)
    ensures x % TWO_32 % TWO_24 == x % TWO_24
  {
    var q, r := x / TWO_32, x % TWO_32;
    assert x == (q * 0x100) * TWO_24 + r;
    AddMultiple(q * 0x100, r);
  }

  lemma AddMultiple(m: nat, r: nat)
    ensures (m * TWO_24 + r) % TWO_24 == r % TWO_24
  {
    OnlyRemainder(m + r / TWO_24, r % TWO_24);
    assert m * TWO_24 + r == (m + r / TWO_24) * TWO_24 + r % TWO_24;
  }

  lemma OnlyRemainder(q: nat, s: nat)
    requires s < TWO_24
    ensures (q * TWO_24 + s) % TWO_24 == s
  {
  }

  lemma StepsApart(x: nat, a: nat, b: nat)
    requires a < b < TWO_24
    ensures (x + a) % TWO_24 != (x + b) % TWO_24
  {
  }

  lemma DerivedDiffer(mac: Mac, start: u32, a: nat, b: nat)
    requires a < b < TWO_24
    ensures Derived(mac, (start + a) % TWO_32) != Derived(mac, (start + b) % TWO_32)
  {
    hide Derived;
    Low24OfDerived(mac, (start + a) % TWO_32);
    Low24OfDerived(mac, (start + b) % TWO_32);
    LowerBits(start + a);
    LowerBits(start + b);
    StepsApart(start, a, b);
  }

  /** Started at index 0, the generator makes all addresses different. */
  lemma GeneratedFromZeroIsDistinct(table: seq<Mac>, serial: u32, mac: Mac)
    requires |table| <= TWO_24 && Generated(table, 0, serial, mac)
    ensures Distinct(table)
  {
    hide Derived, Start;
    forall i, j | 0 <= i < j < |table| ensures table[i] != table[j] {
      var start := Start(serial, |table|);
      assert table[i] == Derived(mac, (start + (i - 0)) % TWO_32) && table[j] == Derived(mac, (start + (j - 0)) % TWO_32);
      DerivedDiffer(mac, start, i, j);
    }
  }

  /**
   Started at index 1, behind the platform's own address, it does so exactly if that address does not end in
   one of the serial numbers used.
   */
  lemma GeneratedBehindOneIsDistinct(table: seq<Mac>, serial: u32, mac: Mac)
    requires 0 < |table| <= TWO_24 && Generated(table, 1, serial, mac) && table[0] == mac
    ensures Distinct(table) <==> (Low24(mac) - Start(serial, |table|)) % TWO_24 >= |table| - 1
  {
    var start := Start(serial, |table|);
    forall i, j | 1 <= i < j < |table| ensures table[i] != table[j] {
      DerivedDiffer(mac, start, i - 1, j - 1);
    }
    forall j | 1 <= j < |table| ensures table[0] != table[j] <==> (Low24(mac) - start) % TWO_24 != j - 1 {
      EndsIn(mac, start, j - 1);
    }
    var k := (Low24(mac) - start) % TWO_24;
    if k < |table| - 1 {
      assert table[0] == table[k + 1];
    }
  }

  lemma EndsIn(mac: Mac, start: u32, k: nat)
    requires k < TWO_24
    ensures Derived(mac, (start + k) % TWO_32) == mac <==> (Low24(mac) - start) % TWO_24 == k
  {
    hide Derived;
    Low24OfDerived(mac, (start + k) % TWO_32);
    LowerBits(start + k);
    SameByLow24(Derived(mac, (start + k) % TWO_32), mac);
    hide Low24;
    Offset(Low24(mac), start, k);
  }

  lemma Offset(n: nat, start: nat, k: nat)
    requires n < TWO_24 && k < TWO_24
    ensures (start + k) % TWO_24 == n <==> (n - start) % TWO_24 == k
  {
    var q, r := start / TWO_24, start % TWO_24;
    assert (start + k) % TWO_24 == if r + k < TWO_24 then r + k else r + k - TWO_24;
    assert (n - start) % TWO_24 == if n >= r then n - r else n - r + TWO_24;
  }

  lemma SameByLow24(a: Mac, b: Mac)
    requires SameVendor(a, b)
    ensures a == b <==> Low24(a) == Low24(b)
  {
  }

  lemma NextSerial(start: nat, k: nat)
    ensures ((start + k) % TWO_32 + 1) % TWO_32 == (start + (k + 1)) % TWO_32
  {
  }

  // ----- the driver -----

  class Config {
    const intfMacAddr: array<Mac>
    var intfAddrMask: seq<bool>    // one bit for each persona

    ghost predicate Valid()
      reads this
    {
      |intfAddrMask| == intfMacAddr.Length
    }

    constructor (personas: nat)
      ensures Valid() && intfMacAddr.Length == personas && fresh(intfMacAddr)
      ensures intfAddrMask == Fresh(intfMacAddr[..]).mask
    {
      intfMacAddr := new Mac[personas](_ => Mac(0, 0, 0, 0, 0, 0));
      intfAddrMask := seq(personas, _ => false);
    }

    /** `wlan_hdd_get_intf_addr` */
    method GetIntfAddr() returns (addr: Option<Mac>)
      requires Valid()
      modifies this
      ensures Valid() && intfAddrMask == GetMask(old(intfAddrMask))
      ensures addr.Some? <==> false in old(intfAddrMask)
      ensures addr.Some? ==> addr.value == intfMacAddr[FirstClear(old(intfAddrMask))]
    {
      var i := 0;
      while i < intfMacAddr.Length
        invariant i <= intfMacAddr.Length && forall j :: 0 <= j < i ==> intfAddrMask[j]
      {
        if !intfAddrMask[i] {
          break;
        }
        i := i + 1;
      }
      assert i == FirstClear(intfAddrMask);
      if i == intfMacAddr.Length {
        return None;
      }
      intfAddrMask := intfAddrMask[i := true];
      return Some(intfMacAddr[i]);
    }

    /** `wlan_hdd_release_intf_addr` */
    method ReleaseIntfAddr(releaseAddr: Mac)
      requires Valid()
      modifies this
      ensures Valid() && intfAddrMask == ReleaseMask(intfMacAddr[..], old(intfAddrMask), releaseAddr)
    {
      var i := 0;
      while i < intfMacAddr.Length
        invariant i <= intfMacAddr.Length && intfAddrMask == old(intfAddrMask)
        invariant forall j :: 0 <= j < i ==> intfMacAddr[j] != releaseAddr
      {
        if releaseAddr == intfMacAddr[i] {
          intfAddrMask := intfAddrMask[i := false];
          break;
        }
        i := i + 1;
      }
      assert i == FirstMatch(intfMacAddr[..], releaseAddr);
    }

    /** `hdd_generate_iface_mac_addr_auto`: 0 for success, -1 without a serial number. */
    method GenerateIfaceMacAddrAuto(idx: nat, serial: u32, mac: Mac) returns (rc: int)
      requires idx <= intfMacAddr.Length
      modifies intfMacAddr
      ensures rc == (if serial != 0 then 0 else -1)
      ensures serial == 0 ==> intfMacAddr[..] == old(intfMacAddr[..])
      ensures serial != 0 ==>
                Generated(intfMacAddr[..], idx, serial, mac) && intfMacAddr[..idx] == old(intfMacAddr[..idx])
    {
      hide Derived, Start;
      if serial == 0 {
        return -1;
      }
      var serialno: u32 := Start(serial, intfMacAddr.Length);
      for i := idx to intfMacAddr.Length
        invariant serialno == (Start(serial, intfMacAddr.Length) + (i - idx)) % TWO_32
        invariant forall j :: idx <= j < i ==>
                                intfMacAddr[j] == Derived(mac, (Start(serial, intfMacAddr.Length) + (j - idx)) % TWO_32)
        invariant forall j :: 0 <= j < idx ==> intfMacAddr[j] == old(intfMacAddr[j])
      {
        intfMacAddr[i] := Derived(mac, serialno);
        NextSerial(Start(serial, intfMacAddr.Length), i - idx);
        serialno := (serialno + 1) % TWO_32;
      }
      return 0;
    }
  }
}
