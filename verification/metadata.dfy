/** The typed metadata values the IP cache attaches to a prefix. Each has a
    sentinel for "not set" and a validity predicate that tells it apart from an
    explicit value, so that the cache can tell "absent" from "zero". */
module Metadata {
  import opened Decimal

  /** Go's `uint8`. */
  type Uint8 = bv8

  /** The numeric security identity handed out by the identity allocator. Its
      definition lives outside this model; it is taken to be a 32-bit unsigned
      number. */
  type NumericIdentity = x: int | 0 <= x < 0x1_0000_0000

  // ---------------------------------------------------------------------------
  // EncryptKey

  /** The index of an encryption key slot; 0 is reserved for "no key". */
  datatype EncryptKey = EncryptKey(key: Uint8) {

    predicate IsValid() {
      this != EncryptKeyEmpty
    }

    /** The raw slot number; converting back gives the same key. */
    function Uint8(): (b: Uint8)
      ensures EncryptKey(b) == this
    {
      key
    }

    /** The slot number in decimal, as Go's `strconv.Itoa` writes it. A
        `uint8` is never negative, so no sign appears. */
    function String(): (s: string)
      ensures IsCanonical(s)
      ensures 1 <= |s| <= 3
      ensures ParseDecimal(s) == Some(key as nat)
    {
      var n := key as nat;
      assert Pow10(3) == 1000;
      FormatLength(n, 3);
      FormatDecimal(n)
    }
  }

  const EncryptKeyEmpty := EncryptKey(0)

  /** The empty key is the only invalid one; every other slot number is valid. */
  lemma EncryptKeyValidity(e: EncryptKey)
    ensures e.IsValid() <==> e.Uint8() != 0
    ensures !e.IsValid() ==> e == EncryptKeyEmpty
  {
  }

  /** Two keys print alike only if they are the same key. */
  lemma EncryptKeyStringInjective(e1: EncryptKey, e2: EncryptKey)
    requires e1.String() == e2.String()
    ensures e1 == e2
  {
    var n1, n2 := e1.key as nat, e2.key as nat;
    assert Some(n1) == ParseDecimal(e1.String()) == Some(n2);
    assert e1.key == n1 as bv8 && e2.key == n2 as bv8;
  }

  // ---------------------------------------------------------------------------
  // RequestedIdentity

  /** A numeric identity that a prefix asks the allocator for; 0 means no
      request. Whether the allocator honours it is not part of this model. */
  datatype RequestedIdentity = RequestedIdentity(value: NumericIdentity) {

    predicate IsValid() {
      value != 0
    }

    /** The requested identity itself; wrapping it again gives the same request. */
    function ID(): (id: NumericIdentity)
      ensures RequestedIdentity(id) == this
    {
      value
    }
  }

  /** "No request" is exactly the zero identity. */
  lemma RequestedIdentityValidity(r: RequestedIdentity)
    ensures r.IsValid() <==> r.ID() != 0
    ensures !r.IsValid() ==> r == RequestedIdentity(0)
  {
  }

  // ---------------------------------------------------------------------------
  // EndpointFlags

  /** Bit positions of the 8-bit flag byte shared with the datapath's ipcache
      map; they must not be renumbered. */
  const FlagSkipTunnel: Uint8 := 1 << 0

  /** Per-endpoint flags. `isInit` turns true on the first setter call and
      separates "never set" from "set, all false". */
  datatype EndpointFlags = EndpointFlags(isInit: bool, flagSkipTunnel: bool) {

    /** Records whether traffic to the endpoint bypasses the overlay tunnel. */
    function SetSkipTunnel(skip: bool): (e: EndpointFlags)
      ensures e.IsValid()
      ensures e.Uint8() == if skip then FlagSkipTunnel else 0
    {
      EndpointFlags(true, skip)
    }

    predicate IsValid() {
      isInit
    }

    /** The datapath encoding: bit 0 carries skip-tunnel, every other bit is 0. */
    function Uint8(): (b: Uint8)
      ensures b & !FlagSkipTunnel == 0
      ensures (b & FlagSkipTunnel != 0) <==> flagSkipTunnel
      ensures b as int <= 1
    {
      var flags: Uint8 := 0;
      if flagSkipTunnel then flags | FlagSkipTunnel else flags
    }
  }

  /** Go's zero value: no setter has run. */
  const EndpointFlagsZero := EndpointFlags(false, false)

  /** The zero value is not valid and encodes to an all-clear byte. */
  lemma EndpointFlagsZeroValue()
    ensures !EndpointFlagsZero.IsValid()
    ensures EndpointFlagsZero.Uint8() == 0
  {
  }

  /** The reference inverse of `EndpointFlags.Uint8`: the valid value a flag
      byte stands for. */
  function DecodeFlags(b: Uint8): (e: EndpointFlags)
    ensures e.IsValid()
    ensures e.flagSkipTunnel <==> b & FlagSkipTunnel != 0
  {
    EndpointFlags(true, b & FlagSkipTunnel != 0)
  }

  /** The encoding loses nothing of a set value: decoding its byte gives it back. */
  lemma FlagsRoundTrip(e: EndpointFlags)
    requires e.IsValid()
    ensures DecodeFlags(e.Uint8()) == e
  {
  }

  /** The value after a sequence of `SetSkipTunnel` calls, in order. */
  function ApplySetters(e: EndpointFlags, writes: seq<bool>): EndpointFlags
    decreases |writes|
  {
    if |writes| == 0 then e
    else ApplySetters(e.SetSkipTunnel(writes[0]), writes[1..])
  }

  /** After at least one setter the value is valid and holds the last write,
      whatever it held before. */
  lemma {:induction false} LastWriteWins(e: EndpointFlags, writes: seq<bool>)
    requires |writes| > 0
    ensures ApplySetters(e, writes) == EndpointFlags(true, writes[|writes| - 1])
    ensures ApplySetters(e, writes).Uint8() == if writes[|writes| - 1] then FlagSkipTunnel else 0
    decreases |writes|
  {
    if |writes| > 1 {
      LastWriteWins(e.SetSkipTunnel(writes[0]), writes[1..]);
    }
  }

  /** Initialisation is one-way: no sequence of setters makes a valid value
      invalid again, and with no setter the value is unchanged. */
  lemma {:induction false} InitIsOneWay(e: EndpointFlags, writes: seq<bool>)
    ensures ApplySetters(e, writes).IsValid() <==> e.IsValid() || |writes| > 0
    ensures |writes| == 0 ==> ApplySetters(e, writes) == e
  {
    if |writes| > 0 {
      LastWriteWins(e, writes);
    }
  }

  /** A value reached from the zero value is invalid only while it is still the
      zero value, so an invalid value reached that way never has a bit set. */
  lemma {:induction false} ReachableInvalidIsZero(writes: seq<bool>)
    ensures !ApplySetters(EndpointFlagsZero, writes).IsValid()
      ==> ApplySetters(EndpointFlagsZero, writes) == EndpointFlagsZero
    ensures !ApplySetters(EndpointFlagsZero, writes).IsValid()
      ==> ApplySetters(EndpointFlagsZero, writes).Uint8() == 0
  {
    InitIsOneWay(EndpointFlagsZero, writes);
  }
}
