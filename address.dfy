/**
 * `handleZeros`: recovers a 20-byte address (40 hex characters) from a value
 * that may carry a 32-byte topic's leading zero padding, or be too short.
 */
module Address {
  import opened JsStrings

  /**
   * The input without its first two characters whenever "0x" occurs
   * anywhere in it (not only as a prefix), as `index.js` does.
   */
  function StripPrefix(address: string): (r: string)
    ensures IndexOf(address, "0x") == -1 ==> r == address
    ensures IndexOf(address, "0x") != -1 ==> |address| >= 2 && r == address[2..]
  {
    if IndexOf(address, "0x") != -1 then SliceFrom(address, 2) else address
  }

  /** The stripped input brought to 40 characters. */
  function Fit(f: string): (r: string)
    ensures |r| == 40
  {
    if |f| < 40 then Zeros(40 - |f|) + f else f[|f| - 40..]
  }

  /** The value `handleZeros(address)` returns. */
  function NormalizeAddress(address: string): (r: string)
    ensures |r| == 42
  {
    "0x" + Fit(StripPrefix(address))
  }

  /**
   * What `handleZeros` returns is always "0x" and 40 characters, which are
   * the stripped input left-padded with '0' when it is shorter, its
   * rightmost 40 characters when it is longer, itself at exactly 40.
   */
  lemma NormalizeAddressShape(address: string)
    ensures var r, f := NormalizeAddress(address), StripPrefix(address);
      && |r| == 42 && r[..2] == "0x"
      && (|f| <= 40 ==> r[42 - |f|..] == f && forall i :: 2 <= i < 42 - |f| ==> r[i] == '0')
      && (|f| >= 40 ==> r[2..] == f[|f| - 40..])
  {
    var r, f := NormalizeAddress(address), StripPrefix(address);
    assert r[..2] == "0x" && r[2..] == Fit(f);
    if |f| < 40 {
      assert r[42 - |f|..] == Fit(f)[40 - |f|..] == f;
    }
  }

  /** `handleZeros(address)`: strip, pad with a loop or keep the rightmost 40, re-attach "0x". */
  method HandleZeros(address: string) returns (r: string)
    ensures r == NormalizeAddress(address)
  {
    var formatted := address;
    if IndexOf(address, "0x") != -1 {
      formatted := SliceFrom(address, 2);
    }
    ghost var stripped := formatted;
    ghost var pad: nat := 0;
    if |formatted| < 40 {
      while |formatted| < 40
        invariant formatted == Zeros(pad) + stripped
        invariant |formatted| <= 40
        decreases 40 - |formatted|
      {
        PadOne(pad, stripped);
        formatted := "0" + formatted;
        pad := pad + 1;
      }
    } else if |formatted| > 40 {
      formatted := formatted[|formatted| - 40..];
    }
    r := "0x" + formatted;
    NormalizeIsFit(address, stripped, pad, r);
  }

  /** What the loop leaves behind is the stripped input brought to 40 characters. */
  lemma NormalizeIsFit(address: string, stripped: string, pad: nat, r: string)
    requires stripped == StripPrefix(address)
    requires |stripped| < 40 ==> r == "0x" + (Zeros(pad) + stripped) && pad + |stripped| == 40
    requires |stripped| >= 40 ==> r == "0x" + stripped[|stripped| - 40..]
    ensures r == NormalizeAddress(address)
  {
    assert r == "0x" + Fit(stripped);
  }

  /** Prepending one '0' to a zero run followed by `s` lengthens the run. */
  lemma PadOne(n: nat, s: string)
    ensures "0" + (Zeros(n) + s) == Zeros(n + 1) + s
  {
  }

  /** Normalizing a normalized address changes nothing. */
  lemma NormalizeIdempotent(address: string)
    ensures NormalizeAddress(NormalizeAddress(address)) == NormalizeAddress(address)
  {
    var r := NormalizeAddress(address);
    CanonicalIsFixed(r[2..]);
    assert r == "0x" + r[2..];
  }

  /** "0x" followed by exactly 40 characters is returned unchanged. */
  lemma CanonicalIsFixed(a: string)
    requires |a| == 40
    ensures NormalizeAddress("0x" + a) == "0x" + a
  {
    assert OccursAt("0x" + a, "0x", 0);
    assert ("0x" + a)[2..] == a;
  }

  /**
   * A topic that holds an address, "0x" and the 40 address characters after
   * 24 zero characters of padding, normalizes to "0x" and the address.
   */
  lemma TopicYieldsAddress(a: string)
    requires |a| == 40
    ensures NormalizeAddress("0x" + Zeros(24) + a) == "0x" + a
  {
    var t := "0x" + Zeros(24) + a;
    assert OccursAt(t, "0x", 0);
    assert t[2..] == Zeros(24) + a;
    assert (Zeros(24) + a)[24..] == a;
  }

  /** "0x1" normalizes to "0x", 39 zeros and "1". */
  lemma ShortInputIsPadded()
    ensures NormalizeAddress("0x1") == "0x" + Zeros(39) + "1"
  {
    assert OccursAt("0x1", "0x", 0);
    assert "0x1"[2..] == "1";
  }

  /**
   * "0x" in the middle of the input still strips the first two characters:
   * "ab0xcd" keeps "0xcd", which is then padded.
   */
  lemma InnerMarkerStripsFirstTwo()
    ensures NormalizeAddress("ab0xcd") == "0x" + Zeros(36) + "0xcd"
  {
    assert OccursAt("ab0xcd", "0x", 2);
    assert "ab0xcd"[2..] == "0xcd";
  }

  /** An input without "0x" is never stripped: 40 characters come back behind "0x". */
  lemma UnprefixedIsKept(a: string)
    requires |a| == 40 && Lacks(a, 'x')
    ensures NormalizeAddress(a) == "0x" + a
  {
    forall k: nat ensures !OccursAt(a, "0x", k) {
      if k + 2 <= |a| {
        assert a[k..k + 2][1] == a[k + 1];
      }
    }
  }
}
