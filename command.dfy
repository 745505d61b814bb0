/**
 * The request side of one slab pass: the fixed slab-id range, the
 * `stats cachedump <x> 0\r\n` command, the bounded formatting of the slab id
 * and the version rule that decides which servers are asked for a slab.
 */
module DumpCommand {
  import opened Wrappers
  import opened Text

  /** MAX_NUMBER_OF_SLAB_CLASSES as of memcached 1.4.10: slab ids 0..199 are asked for. */
  const SlabClassCount: nat := 200

  /** From server version 1.4.23 on, slab ids from 64 up are no longer requested. */
  const FirstSkippedSlab: nat := 64

  datatype Version = Version(major: nat, minor: nat, micro: nat)

  const SlabLimitVersion: Version := Version(1, 4, 23)

  /**
   * The major version a server keeps while its version is unknown
   * (UINT8_MAX), for instance when the version query at the start of the dump
   * failed.
   */
  const UnknownMajor: nat := 255

  /** `v` is an older release than `w`: the (major, minor, micro) triples in lexicographic order. */
  predicate OlderThan(v: Version, w: Version) {
    || v.major < w.major
    || (v.major == w.major && v.minor < w.minor)
    || (v.major == w.major && v.minor == w.minor && v.micro < w.micro)
  }

  /** A version triple of byte-sized components packed into one number. */
  function VersionNumber(v: Version): nat {
    v.major * 65536 + v.minor * 256 + v.micro
  }

  /** For byte-sized components the release order is the order of the packed numbers. */
  lemma OlderThanIsPackedOrder(v: Version, w: Version)
    requires v.major < 256 && v.minor < 256 && v.micro < 256
    requires w.major < 256 && w.minor < 256 && w.micro < 256
    ensures OlderThan(v, w) <==> VersionNumber(v) < VersionNumber(w)
  {
    if v.major != w.major {
      if v.major < w.major {
        assert VersionNumber(v) < (v.major + 1) * 65536 <= VersionNumber(w);
      } else {
        assert VersionNumber(w) < (w.major + 1) * 65536 <= VersionNumber(v);
      }
    } else if v.minor != w.minor {
      if v.minor < w.minor {
        assert VersionNumber(v) < v.major * 65536 + (v.minor + 1) * 256 <= VersionNumber(w);
      } else {
        assert VersionNumber(w) < w.major * 65536 + (w.minor + 1) * 256 <= VersionNumber(v);
      }
    }
  }

  /**
   * `memcached_version_instance_cmp(instance, w.major, w.minor, w.micro) < 0`:
   * a server of unknown version compares below every release (the comparison
   * returns INT8_MIN); a known version compares by release order.
   */
  predicate VersionBelow(v: Version, w: Version) {
    v.major == UnknownMajor || OlderThan(v, w)
  }

  /** Whether a server of version `v` is sent the command for slab `x`. */
  predicate ReceivesSlab(v: Version, x: nat) {
    x < FirstSkippedSlab || VersionBelow(v, SlabLimitVersion)
  }

  /**
   * For byte-sized version components the skip rule is a comparison of packed
   * version numbers: a server is asked for slab `x` exactly when `x` is below
   * 64, its version is unknown, or it predates 1.4.23.
   */
  lemma ReceivesSlabByNumber(v: Version, x: nat)
    requires v.major < 256 && v.minor < 256 && v.micro < 256
    ensures ReceivesSlab(v, x) <==>
              || x < FirstSkippedSlab
              || v.major == UnknownMajor
              || VersionNumber(v) < VersionNumber(SlabLimitVersion)
  {
    OlderThanIsPackedOrder(v, SlabLimitVersion);
  }

  /**
   * `snprintf(buffer, size, "%u", x)` followed by the overflow test: the
   * numeral and its terminating NUL must fit in `size` bytes.
   */
  function FormatSlabId(x: nat, size: nat): (r: Option<seq<char>>)
    ensures r.Some? ==> AllDigits(r.value) && DigitsValue(r.value) == x && |r.value| + 1 <= size
    ensures r.Some? ==> r.value == Decimal(x) && (|r.value| > 1 ==> r.value[0] != '0')
    ensures r.None? ==> size <= |Decimal(x)|
  {
    DecimalRoundTrip(x);
    var digits := Decimal(x);
    if |digits| >= size then None else Some(digits)
  }

  /** Every slab id of the range fits a buffer of four bytes or more. */
  lemma {:induction false} FormatNeverOverflows(x: nat, size: nat)
    requires x < SlabClassCount && size >= 4
    ensures FormatSlabId(x, size).Some?
  {
    assert Pow10(3) == 1000 by {
      assert Pow10(1) == 10;
      assert Pow10(2) == 100;
    }
    DecimalLength(x, 3);
  }

  /** The three-part message: verb prefix, slab id, " 0" (no item limit) and CRLF. */
  function CachedumpCommand(slabId: seq<char>): (r: seq<char>)
    ensures |r| == |CommandPrefix| + |slabId| + |CommandSuffix|
    ensures r[..|CommandPrefix|] == CommandPrefix
    ensures r[|CommandPrefix|..|CommandPrefix| + |slabId|] == slabId
    ensures r[|r| - |CommandSuffix|..] == CommandSuffix
  {
    "stats cachedump " + slabId + " 0\r\n"
  }

  const CommandPrefix: seq<char> := "stats cachedump "
  const CommandSuffix: seq<char> := " 0\r\n"

  /** How a server reads the slab id back out of a cachedump command. */
  function CommandSlab(cmd: seq<char>): (r: Option<nat>)
  {
    if |cmd| > |CommandPrefix| + |CommandSuffix|
       && cmd[..|CommandPrefix|] == CommandPrefix
       && cmd[|cmd| - |CommandSuffix|..] == CommandSuffix
       && AllDigits(cmd[|CommandPrefix|..|cmd| - |CommandSuffix|])
    then Some(DigitsValue(cmd[|CommandPrefix|..|cmd| - |CommandSuffix|]))
    else None
  }

  /** A server reads back exactly the numeral that was put in the command. */
  lemma CommandNamesSlab(slabId: seq<char>)
    requires slabId != [] && AllDigits(slabId)
    ensures CommandSlab(CachedumpCommand(slabId)) == Some(DigitsValue(slabId))
  {
    var cmd := CachedumpCommand(slabId);
    assert cmd[|CommandPrefix|..|cmd| - |CommandSuffix|] == slabId;
  }

  /** The command for slab `x` names slab `x`, so distinct slabs get distinct commands. */
  lemma CommandRoundTrip(x: nat)
    ensures CommandSlab(CachedumpCommand(Decimal(x))) == Some(x)
  {
    DecimalRoundTrip(x);
    CommandNamesSlab(Decimal(x));
  }
}
