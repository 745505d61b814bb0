/**
 * The `ITEM` response line of `stats cachedump`:
 *     ITEM <key> [<bytes> b; <expire> s;]
 * parsed the way the dump driver does it: the key is the run of graphic
 * characters after the five-byte "ITEM " prefix, and the bracketed suffix is
 * read with `sscanf(..., "[%d b; %llu s;]", ...)` starting one byte past the
 * key, each field keeping its zero default when its conversion does not run.
 */
module ItemLine {
  import opened Wrappers
  import opened Text

  /** Length of the "ITEM " prefix the driver steps over. */
  const ItemPrefixLength: nat := 5

  datatype ItemRecord = ItemRecord(key: seq<char>, bytes: int, expire: nat)

  /** The end of the maximal run of graphic characters that starts at `i`. */
  function GraphRun(s: seq<char>, i: nat): (j: nat)
    requires i <= |s|
    ensures i <= j <= |s|
    ensures forall k :: i <= k < j ==> IsGraph(s[k])
    ensures j == |s| || !IsGraph(s[j])
    decreases |s| - i
  {
    if i < |s| && IsGraph(s[i]) then GraphRun(s, i + 1) else i
  }

  lemma {:induction false} GraphRunTo(s: seq<char>, i: nat, j: nat)
    requires i <= j <= |s|
    requires forall k :: i <= k < j ==> IsGraph(s[k])
    requires j == |s| || !IsGraph(s[j])
    ensures GraphRun(s, i) == j
    decreases j - i
  {
    if i < j {
      GraphRunTo(s, i + 1, j);
    }
  }

  /**
   * `sscanf(s, "[%d b; %llu s;]", &bytes, &expire_time)` with both outputs
   * pre-set to zero.  A format white-space directive matches any amount of
   * white space, including none; conversions skip leading white space;
   * literal characters must match exactly.  The scan stops at the first
   * mismatch, leaving all later outputs untouched.
   */
  function ScanSizeExpire(s: seq<char>): (r: (int, nat))
    ensures r.1 < U64Modulus
  {
    if |s| == 0 || s[0] != '[' then (0, 0)
    else match ScanInt(s, 1)
      case None => (0, 0)
      case Some(b) => (b.value, ScanExpire(s, SkipSpace(s, b.next)))
  }

  /**
   * Each output holds what its conversion stored, or keeps its zero default
   * when the scan stopped before that conversion.
   */
  lemma ScanSizeExpireFields(s: seq<char>)
    ensures SizeField(s, ScanSizeExpire(s).0) && ExpireField(s, ScanSizeExpire(s).1)
  {
    if SizeParses(s) {
      var b := ScanInt(s, 1).value;
      assert ScanSizeExpire(s) == (b.value, ScanExpire(s, SkipSpace(s, b.next)));
      ExpireFieldOf(s, SkipSpace(s, b.next));
    }
  }

  lemma ExpireFieldOf(s: seq<char>, p: nat)
    requires SizeParses(s) && p == ExpireLiteralAt(s)
    ensures ExpireField(s, ScanExpire(s, p))
  {
  }

  /** The leading `[` matches and `%d` converts. */
  predicate SizeParses(s: seq<char>) {
    |s| > 0 && s[0] == '[' && ScanNumeral(s, 1).Some?
  }

  /** Where the ` b;` literals are looked for: past the byte count and any white space after it. */
  function ExpireLiteralAt(s: seq<char>): nat
    requires SizeParses(s)
  {
    SkipSpace(s, ScanNumeral(s, 1).value.next)
  }

  /** Every directive up to and including `%llu` matches. */
  predicate ExpireParses(s: seq<char>) {
    && SizeParses(s)
    && var p := ExpireLiteralAt(s);
       p + 1 < |s| && s[p] == 'b' && s[p + 1] == ';' && ScanNumeral(s, p + 2).Some?
  }

  /** `bytes` is what `%d` stored, or the zero default when the scan stopped before it. */
  predicate SizeField(s: seq<char>, bytes: int) {
    if SizeParses(s) then bytes == ScanInt(s, 1).value.value else bytes == 0
  }

  /** `expire` is what `%llu` stored, or the zero default when the scan stopped before it. */
  predicate ExpireField(s: seq<char>, expire: nat) {
    if ExpireParses(s) then expire == ScanU64(s, ExpireLiteralAt(s) + 2).value.value else expire == 0
  }

  /** The ` b;` literals, then `%llu`, from position `p`; zero when either does not match. */
  function ScanExpire(s: seq<char>, p: nat): (e: nat)
    requires p <= |s|
    ensures e < U64Modulus
    ensures !(p + 1 < |s| && s[p] == 'b' && s[p + 1] == ';' && ScanNumeral(s, p + 2).Some?) ==> e == 0
    ensures p + 1 < |s| && s[p] == 'b' && s[p + 1] == ';' && ScanNumeral(s, p + 2).Some? ==>
              e == ScanU64(s, p + 2).value.value
  {
    if p + 1 < |s| && s[p] == 'b' && s[p + 1] == ';' then
      match ScanU64(s, p + 2)
      case None => 0
      case Some(e) => e.value
    else 0
  }

  /** The text the suffix scan reads: everything after the key's delimiter, if there is one. */
  function SuffixAfter(line: seq<char>, e: nat): seq<char>
    requires e <= |line|
  {
    if e < |line| then line[e + 1..] else []
  }

  /**
   * The item record the driver extracts from an `ITEM` line.  A line with no
   * character after the key gives the suffix scan nothing to read.
   */
  function ParseItem(line: seq<char>): (r: ItemRecord)
    ensures forall i :: 0 <= i < |r.key| ==> IsGraph(r.key[i])
    ensures |line| >= ItemPrefixLength ==>
              var e := ItemPrefixLength + |r.key|;
              && e <= |line|
              && line[ItemPrefixLength..e] == r.key
              && (e == |line| || !IsGraph(line[e]))
              && SizeField(SuffixAfter(line, e), r.bytes)
              && ExpireField(SuffixAfter(line, e), r.expire)
              && (e + 1 >= |line| || line[e + 1] != '[' ==> r.bytes == 0 && r.expire == 0)
    ensures |line| < ItemPrefixLength ==> r == ItemRecord([], 0, 0)
    ensures r.expire < U64Modulus
  {
    var start := if |line| < ItemPrefixLength then |line| else ItemPrefixLength;
    var e := GraphRun(line, start);
    var fields := ScanSizeExpire(SuffixAfter(line, e));
    ScanSizeExpireFields(SuffixAfter(line, e));
    ItemRecord(line[start..e], fields.0, fields.1)
  }

  /** The line a server writes for one cached item. */
  function FormatItem(key: seq<char>, bytes: nat, expire: nat): seq<char> {
    "ITEM " + key + " [" + Decimal(bytes) + " b; " + Decimal(expire) + " s;]"
  }

  /** A decimal numeral behind optional white space scans back to its value. */
  lemma ScanNumeralAt(s: seq<char>, i: nat, j: nat, n: nat)
    requires i <= j && j + |Decimal(n)| <= |s|
    requires forall k :: i <= k < j ==> IsSpace(s[k])
    requires s[j..j + |Decimal(n)|] == Decimal(n)
    requires j + |Decimal(n)| == |s| || !IsDigit(s[j + |Decimal(n)|])
    ensures ScanNumeral(s, i) == Some(Numeral(false, n, j + |Decimal(n)|))
  {
    var d := Decimal(n);
    assert s[j] == d[0];
    SkipSpaceTo(s, i, j);
    assert forall k :: j <= k < j + |d| ==> s[k] == d[k - j];
    DigitRunTo(s, j, j + |d|);
    DecimalRoundTrip(n);
  }

  /** The suffix of a well-formed line yields both numbers. */
  lemma ScanSizeExpireOfFormat(bytes: nat, expire: nat)
    requires expire < U64Modulus
    ensures ScanSizeExpire("[" + Decimal(bytes) + " b; " + Decimal(expire) + " s;]") == (bytes, expire)
  {
    var db, de := Decimal(bytes), Decimal(expire);
    SuffixLayout(db, de);
    ScanSizeExpireOfLayout("[" + db + " b; " + de + " s;]", bytes, expire, db, de);
  }

  /** The characters of a suffix `[<db> b; <de> s;]`, `p` being the position just past `db`. */
  ghost predicate SuffixLayoutAt(s: seq<char>, db: seq<char>, de: seq<char>) {
    var p := 1 + |db|;
    && |s| == p + 4 + |de| + 4
    && s[0] == '[' && s[1..p] == db
    && s[p] == ' ' && s[p + 1] == 'b' && s[p + 2] == ';' && s[p + 3] == ' '
    && s[p + 4..p + 4 + |de|] == de && s[p + 4 + |de|] == ' '
  }

  lemma SuffixLayout(db: seq<char>, de: seq<char>)
    ensures SuffixLayoutAt("[" + db + " b; " + de + " s;]", db, de)
  {
  }

  lemma ScanSizeExpireOfLayout(s: seq<char>, bytes: nat, expire: nat, db: seq<char>, de: seq<char>)
    requires expire < U64Modulus && db == Decimal(bytes) && de == Decimal(expire)
    requires SuffixLayoutAt(s, db, de)
    ensures ScanSizeExpire(s) == (bytes, expire)
  {
    var p := 1 + |db|;
    BytesOfLayout(s, bytes, db, de);
    SpaceOfLayout(s, db, de);
    ExpireOfLayout(s, expire, db, de);
    ScanSizeExpireMatches(s, bytes, p, p + 1, expire);
  }

  lemma BytesOfLayout(s: seq<char>, bytes: nat, db: seq<char>, de: seq<char>)
    requires db == Decimal(bytes) && SuffixLayoutAt(s, db, de)
    ensures s != [] && s[0] == '[' && ScanInt(s, 1) == Some(Scanned(bytes, 1 + |db|))
  {
    ScanIntOfDecimal(s, 1, 1, bytes);
  }

  lemma SpaceOfLayout(s: seq<char>, db: seq<char>, de: seq<char>)
    requires SuffixLayoutAt(s, db, de)
    ensures 1 + |db| <= |s| && SkipSpace(s, 1 + |db|) == 2 + |db|
  {
    SkipSpaceTo(s, 1 + |db|, 2 + |db|);
  }

  lemma ExpireOfLayout(s: seq<char>, expire: nat, db: seq<char>, de: seq<char>)
    requires expire < U64Modulus && de == Decimal(expire) && SuffixLayoutAt(s, db, de)
    ensures 2 + |db| <= |s| && ScanExpire(s, 2 + |db|) == expire
  {
    var p := 1 + |db|;
    ScanU64OfDecimal(s, p + 3, p + 4, expire);
    ScanExpireMatches(s, p + 1, expire, p + 4 + |de|);
  }

  /** The suffix scan when the byte count, the white space and the expiry field all match. */
  lemma ScanSizeExpireMatches(s: seq<char>, bytes: int, q: nat, p: nat, expire: nat)
    requires s != [] && s[0] == '[' && ScanInt(s, 1) == Some(Scanned(bytes, q))
    requires q <= |s| && SkipSpace(s, q) == p && p <= |s| && ScanExpire(s, p) == expire
    ensures ScanSizeExpire(s) == (bytes, expire)
  {
  }

  lemma ScanExpireMatches(s: seq<char>, p: nat, expire: nat, next: nat)
    requires p + 1 < |s| && s[p] == 'b' && s[p + 1] == ';'
    requires ScanU64(s, p + 2) == Some(Scanned(expire, next))
    ensures ScanExpire(s, p) == expire
  {
  }

  lemma ScanIntOfDecimal(s: seq<char>, i: nat, j: nat, n: nat)
    requires i <= j && j + |Decimal(n)| <= |s|
    requires forall k :: i <= k < j ==> IsSpace(s[k])
    requires s[j..j + |Decimal(n)|] == Decimal(n)
    requires j + |Decimal(n)| == |s| || !IsDigit(s[j + |Decimal(n)|])
    ensures ScanInt(s, i) == Some(Scanned(n, j + |Decimal(n)|))
  {
    ScanNumeralAt(s, i, j, n);
  }

  lemma ScanU64OfDecimal(s: seq<char>, i: nat, j: nat, n: nat)
    requires n < U64Modulus
    requires i <= j && j + |Decimal(n)| <= |s|
    requires forall k :: i <= k < j ==> IsSpace(s[k])
    requires s[j..j + |Decimal(n)|] == Decimal(n)
    requires j + |Decimal(n)| == |s| || !IsDigit(s[j + |Decimal(n)|])
    ensures ScanU64(s, i) == Some(Scanned(n, j + |Decimal(n)|))
  {
    ScanNumeralAt(s, i, j, n);
  }

  /** Parsing the line a server formats for an item recovers the item. */
  lemma ItemRoundTrip(key: seq<char>, bytes: nat, expire: nat)
    requires forall i :: 0 <= i < |key| ==> IsGraph(key[i])
    requires expire < U64Modulus
    ensures ParseItem(FormatItem(key, bytes, expire)) == ItemRecord(key, bytes, expire)
  {
    var suffix := "[" + Decimal(bytes) + " b; " + Decimal(expire) + " s;]";
    var line := FormatItem(key, bytes, expire);
    assert line == "ITEM " + key + " " + suffix;
    var e := 5 + |key|;
    assert line[e] == ' ';
    assert forall k :: 5 <= k < e ==> line[k] == key[k - 5];
    GraphRunTo(line, 5, e);
    assert line[5..e] == key;
    assert line[e + 1..] == suffix;
    ScanSizeExpireOfFormat(bytes, expire);
  }

  /** The line `ITEM foo [12 b; 34 s;]` names key "foo", 12 bytes, expiry 34. */
  lemma ItemExample()
    ensures ParseItem("ITEM foo [12 b; 34 s;]") == ItemRecord("foo", 12, 34)
  {
    assert Decimal(12) == "12" && Decimal(34) == "34";
    assert FormatItem("foo", 12, 34) == "ITEM foo [12 b; 34 s;]";
    ItemRoundTrip("foo", 12, 34);
  }

  /**
   * A line whose expiry field is not a number `%llu` can convert (as in
   * `ITEM foo [12 b; x s;]`, or with nothing after `b;` at all) still yields
   * its byte count, while the expiry keeps its zero default.
   */
  lemma MalformedExpiryKeepsZero(key: seq<char>, bytes: nat, rest: seq<char>)
    requires forall i :: 0 <= i < |key| ==> IsGraph(key[i])
    requires ScanNumeral(rest, 0).None?
    ensures ParseItem("ITEM " + key + " [" + Decimal(bytes) + " b; " + rest) == ItemRecord(key, bytes, 0)
  {
    var db := Decimal(bytes);
    var suffix := "[" + db + " b; " + rest;
    MalformedSuffixLayout(db, rest);
    MalformedExpirySuffix(suffix, bytes, 1 + |db|);
    LineOfSuffix(key, db, rest);
    ParseItemOfLayout(key, suffix);
  }

  lemma MalformedSuffixLayout(db: seq<char>, rest: seq<char>)
    ensures var s := "[" + db + " b; " + rest; var p := 1 + |db|;
      && |s| >= p + 4 && s[0] == '[' && s[1..p] == db
      && s[p] == ' ' && s[p + 1] == 'b' && s[p + 2] == ';' && s[p + 3] == ' ' && s[p + 4..] == rest
  {
  }

  lemma LineOfSuffix(key: seq<char>, db: seq<char>, rest: seq<char>)
    ensures "ITEM " + key + " [" + db + " b; " + rest == "ITEM " + key + " " + ("[" + db + " b; " + rest)
  {
  }

  lemma MalformedExpirySuffix(s: seq<char>, bytes: nat, p: nat)
    requires p == 1 + |Decimal(bytes)| && |s| >= p + 4
    requires s[0] == '[' && s[1..p] == Decimal(bytes)
    requires s[p] == ' ' && s[p + 1] == 'b' && s[p + 2] == ';' && s[p + 3] == ' '
    requires ScanNumeral(s[p + 4..], 0).None?
    ensures ScanSizeExpire(s) == (bytes, 0)
  {
    ScanIntOfDecimal(s, 1, 1, bytes);
    SkipSpaceTo(s, p, p + 1);
    NoNumeralAfterSpace(s, p + 3);
    ScanSizeExpireFields(s);
  }

  /** A space followed by text that holds no numeral holds no numeral either. */
  lemma NoNumeralAfterSpace(s: seq<char>, q: nat)
    requires q < |s| && s[q] == ' '
    requires ScanNumeral(s[q + 1..], 0).None?
    ensures ScanNumeral(s, q).None?
  {
    assert SkipSpace(s, q) == SkipSpace(s, q + 1);
    ScanNumeralShift(s, q + 1, q + 1);
  }

  /** An item line with a graphic key and a delimiter hands everything after the delimiter to the suffix scan. */
  lemma ParseItemOfLayout(key: seq<char>, suffix: seq<char>)
    requires forall i :: 0 <= i < |key| ==> IsGraph(key[i])
    ensures ParseItem("ITEM " + key + " " + suffix)
            == ItemRecord(key, ScanSizeExpire(suffix).0, ScanSizeExpire(suffix).1)
  {
    var line := "ITEM " + key + " " + suffix;
    var e := 5 + |key|;
    assert line[e] == ' ';
    assert forall k :: 5 <= k < e ==> line[k] == key[k - 5];
    GraphRunTo(line, 5, e);
    assert line[5..e] == key;
    assert line[e + 1..] == suffix;
  }
}
