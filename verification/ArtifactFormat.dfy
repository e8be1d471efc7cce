/**
  The artifact files of the build cache (cmd/qkc/artifact_cache.go): a
  length-prefixed writer and a strict reader, from value to bytes and back.
 */
module ArtifactFormat {
  import opened Types

  type Byte = b: int | 0 <= b < 256

  /** Go strings are byte strings. */
  type Bytes = seq<Byte>

  datatype Artifact = Artifact(implementationHash: Bytes, objects: map<Bytes, Bytes>)

  datatype Entry = Entry(key: Bytes, content: Bytes)

  const MAGIC: Bytes := [0x51, 0x4B, 0x41, 0x52, 0x54, 0x46, 0x30, 0x31]  // QKARTF01
  const VERSION: nat := 5
  const MAX_FIELD: nat := 0x4000_0000
  const MAX_OBJECTS: nat := 1024
  const WORD: nat := 0x1_0000_0000

  predicate HexDigit(b: Byte) {
    0x30 <= b <= 0x39 || 0x41 <= b <= 0x46 || 0x61 <= b <= 0x66
  }

  /** The digits, in both cases. */
  const DIGITS: string := "0123456789ABCDEFabcdef"

  lemma HexDigitExactly(b: Byte)
    ensures HexDigit(b) <==> exists i | 0 <= i < |DIGITS| :: b == DIGITS[i] as int
  {
    if HexDigit(b) {
      var i := if b <= 0x39 then b - 0x30 else if b <= 0x46 then b - 0x41 + 10 else b - 0x61 + 16;
      assert b == DIGITS[i] as int;
    }
  }

  /** validArtifactHash: the text of 32 bytes. */
  predicate ValidHash(s: Bytes) {
    |s| == 64 && forall i | 0 <= i < |s| :: HexDigit(s[i])
  }

  // ----- Fields -----

  /** How many numbers `k` bytes can hold. */
  function Range(k: nat): nat {
    if k == 0 then 1 else 256 * Range(k - 1)
  }

  /** A number in `k` bytes, most significant byte first. */
  function BigEndian(n: nat, k: nat): (bs: Bytes)
    ensures |bs| == k
  {
    if k == 0 then [] else BigEndian(n / 256, k - 1) + [n % 256]
  }

  function BigEndianValue(bs: Bytes, k: nat): (n: nat)
    requires k <= |bs|
    ensures n < Range(k)
  {
    if k == 0 then 0 else Joined(BigEndianValue(bs, k - 1), bs[k - 1])
  }

  /** A number with one more byte at its end. */
  function Joined(high: nat, low: Byte): (n: nat)
    ensures n / 256 == high && n % 256 == low
  {
    256 * high + low
  }

  lemma {:induction false} BigEndianRoundTrip(n: nat, k: nat, rest: Bytes)
    requires n < Range(k)
    ensures BigEndianValue(BigEndian(n, k) + rest, k) == n
  {
    if k > 0 {
      BigEndianRoundTrip(n / 256, k - 1, [n % 256] + rest);
      assert BigEndian(n, k) + rest == BigEndian(n / 256, k - 1) + ([n % 256] + rest);
      assert Joined(n / 256, n % 256) == n;
    }
  }

  lemma {:induction false} BigEndianUnique(bs: Bytes, k: nat)
    requires k <= |bs|
    ensures BigEndian(BigEndianValue(bs, k), k) == bs[..k]
  {
    if k > 0 {
      BigEndianUnique(bs, k - 1);
    }
  }

  lemma {:induction false} BigEndianPrefix(bs: Bytes, k: nat, m: nat)
    requires k <= m <= |bs|
    ensures BigEndianValue(bs[..m], k) == BigEndianValue(bs, k)
  {
    if k > 0 {
      BigEndianPrefix(bs, k - 1, m);
    }
  }

  function U32(n: nat): (bs: Bytes)
    requires n < WORD
    ensures |bs| == 4
  {
    BigEndian(n, 4)
  }

  function U32Value(bs: Bytes): (n: nat)
    requires |bs| >= 4
    ensures n < WORD
  {
    assert Range(4) == WORD;
    BigEndianValue(bs, 4)
  }

  lemma U32RoundTrip(n: nat, rest: Bytes)
    requires n < WORD
    ensures U32Value(U32(n) + rest) == n
    ensures (U32(n) + rest)[4..] == rest
  {
    assert Range(4) == WORD;
    BigEndianRoundTrip(n, 4, rest);
  }

  lemma U32Unique(bs: Bytes)
    requires |bs| >= 4
    ensures bs == U32(U32Value(bs)) + bs[4..]
  {
    BigEndianUnique(bs, 4);
    assert bs == bs[..4] + bs[4..];
  }

  /** A field that the writer accepts. */
  predicate Fits(s: Bytes) {
    |s| <= MAX_FIELD
  }

  function Field(s: Bytes): Bytes
    requires Fits(s)
  {
    U32(|s|) + s
  }

  /** What a read step makes of the bytes: a value and the bytes after it. */
  datatype Read<+T> = Got(value: T, rest: Bytes) | Bad

  /** readArtifactBytes */
  function ReadField(bs: Bytes): Read<Bytes> {
    if |bs| < 4 then Bad
    else
      var size := U32Value(bs);
      if size > MAX_FIELD || |bs| - 4 < size then Bad else Got(bs[4..4 + size], bs[4 + size..])
  }

  lemma Associates(a: Bytes, b: Bytes, c: Bytes)
    ensures (a + b) + c == a + (b + c)
  {
  }

  lemma FieldRoundTrip(s: Bytes, rest: Bytes)
    requires Fits(s)
    ensures ReadField(Field(s) + rest) == Got(s, rest)
  {
    var bs := Field(s) + rest;
    assert bs == U32(|s|) + (s + rest);
    U32RoundTrip(|s|, s + rest);
    assert bs[4..] == s + rest;
    assert bs[4..4 + |s|] == (s + rest)[..|s|] == s;
    assert bs[4 + |s|..] == (s + rest)[|s|..] == rest;
  }

  lemma FieldUnique(bs: Bytes)
    ensures var r := ReadField(bs); r.Got? ==> Fits(r.value) && bs == Field(r.value) + r.rest
  {
    var r := ReadField(bs);
    if r.Got? {
      U32Unique(bs);
      SplitAfter(bs, |r.value|);
      Associates(U32(|r.value|), r.value, r.rest);
    }
  }

  lemma SplitAfter(bs: Bytes, size: nat)
    requires 4 + size <= |bs|
    ensures bs[4..] == bs[4..4 + size] + bs[4 + size..]
  {
  }

  // ----- Entries -----

  predicate EntryFits(e: Entry) {
    Fits(e.key) && Fits(e.content) && e.key != []
  }

  function EntryBytes(e: Entry): Bytes
    requires Fits(e.key) && Fits(e.content)
  {
    Field(e.key) + Field(e.content)
  }

  predicate AllFit(es: seq<Entry>) {
    forall i | 0 <= i < |es| :: Fits(es[i].key) && Fits(es[i].content)
  }

  function EntriesBytes(es: seq<Entry>): Bytes
    requires AllFit(es)
  {
    if es == [] then [] else EntryBytes(es[0]) + EntriesBytes(es[1..])
  }

  function ReadEntry(bs: Bytes): Read<Entry> {
    var key := ReadField(bs);
    if key.Bad? then Bad
    else
      var content := ReadField(key.rest);
      if content.Bad? || key.value == [] then Bad else Got(Entry(key.value, content.value), content.rest)
  }

  /** The next `count` entries, in order. */
  function ReadEntries(bs: Bytes, count: nat): Read<seq<Entry>> {
    if count == 0 then Got([], bs)
    else
      var first := ReadEntry(bs);
      if first.Bad? then Bad else Prepended(first.value, ReadEntries(first.rest, count - 1))
  }

  function Prepended(e: Entry, others: Read<seq<Entry>>): Read<seq<Entry>> {
    if others.Bad? then Bad else Got([e] + others.value, others.rest)
  }

  /** The objects that entries leave in the map: a repeated key keeps its last object. */
  function AddObjects(before: map<Bytes, Bytes>, es: seq<Entry>): map<Bytes, Bytes>
    decreases es
  {
    if es == [] then before else AddObjects(before[es[0].key := es[0].content], es[1..])
  }

  function Objects(es: seq<Entry>): map<Bytes, Bytes> {
    AddObjects(map[], es)
  }

  lemma EntryRoundTrip(e: Entry, rest: Bytes)
    requires Fits(e.key) && Fits(e.content)
    ensures ReadEntry(EntryBytes(e) + rest) == if e.key == [] then Bad else Got(e, rest)
  {
    Associates(Field(e.key), Field(e.content), rest);
    FieldRoundTrip(e.key, Field(e.content) + rest);
    FieldRoundTrip(e.content, rest);
  }

  /** The bytes are those of an entry, and what is left. */
  ghost predicate EntryOf(bs: Bytes, r: Read<Entry>) {
    match r
    case Bad => false
    case Got(e, rest) => EntryFits(e) && bs == EntryBytes(e) + rest
  }

  lemma EntryUnique(bs: Bytes)
    requires ReadEntry(bs).Got?
    ensures EntryOf(bs, ReadEntry(bs))
  {
    var key := ReadField(bs);
    var content := ReadField(key.rest);
    FieldUnique(bs);
    FieldUnique(key.rest);
    Associates(Field(key.value), Field(content.value), content.rest);
  }

  // ----- Files -----

  function Header(hash: Bytes): Bytes
    requires Fits(hash)
  {
    MAGIC + (U32(VERSION) + Field(hash))
  }

  /** The file for entries in a given order; the count is cut to 32 bits. */
  function FileBytes(hash: Bytes, es: seq<Entry>): Bytes
    requires Fits(hash) && AllFit(es)
  {
    Header(hash) + Body(es)
  }

  function Body(es: seq<Entry>): Bytes
    requires AllFit(es)
  {
    Count(|es|) + EntriesBytes(es)
  }

  function Count(n: nat): Bytes {
    U32(Wrapped(n))
  }

  /** The conversion to 32 bits. */
  function Wrapped(n: nat): (w: nat)
    ensures w < WORD && w <= n
  {
    if n < WORD then n else n % WORD
  }

  lemma CountRoundTrip(n: nat, rest: Bytes)
    ensures ReadCount(Count(n) + rest) == if Wrapped(n) > MAX_OBJECTS then Bad else Got(Wrapped(n), rest)
  {
    U32RoundTrip(Wrapped(n), rest);
  }

  lemma CountUnique(bs: Bytes)
    requires ReadCount(bs).Got?
    ensures var r := ReadCount(bs); r.value <= MAX_OBJECTS && bs == Count(r.value) + r.rest
  {
    U32Unique(bs);
  }

  function ReadHeader(bs: Bytes): Read<Bytes> {
    if |bs| < 8 || bs[..8] != MAGIC then Bad
    else if |bs| < 12 || U32Value(bs[8..]) != VERSION then Bad
    else
      var hash := ReadField(bs[12..]);
      if hash.Bad? || !ValidHash(hash.value) then Bad else hash
  }

  function ReadCount(bs: Bytes): Read<nat> {
    if |bs| < 4 || U32Value(bs) > MAX_OBJECTS then Bad else Got(U32Value(bs), bs[4..])
  }

  /** All bytes are `count` entries. */
  function ReadAll(bs: Bytes, count: nat): Option<seq<Entry>> {
    var es := ReadEntries(bs, count);
    if es.Bad? || es.rest != [] then None else Some(es.value)
  }

  function ReadBody(bs: Bytes): Option<seq<Entry>> {
    var count := ReadCount(bs);
    if count.Bad? then None else ReadAll(count.rest, count.value)
  }

  /** loadCachedArtifactAny */
  function Load(bs: Bytes): Option<Artifact> {
    var hash := ReadHeader(bs);
    if hash.Bad? then None
    else
      var es := ReadBody(hash.rest);
      if es.None? then None else Some(Artifact(hash.value, Objects(es.value)))
  }

  // ----- Reading, step by step -----

  class Reader {
    const data: Bytes
    var pos: nat

    constructor (data: Bytes)
      ensures this.data == data && pos == 0
    {
      this.data := data;
      pos := 0;
    }

    function Rest(): Bytes
      reads this
      requires pos <= |data|
    {
      data[pos..]
    }

    /** The bytes of a read of `n` bytes, if there are as many. */
    method ReadFull(n: nat) returns (r: Option<Bytes>)
      requires pos <= |data|
      modifies this
      ensures pos <= |data|
      ensures |old(Rest())| >= n ==> r == Some(old(Rest())[..n]) && Rest() == old(Rest())[n..]
      ensures |old(Rest())| < n ==> r == None
    {
      if |data| - pos < n {
        pos := |data|;
        return None;
      }
      r := Some(data[pos..pos + n]);
      assert Rest()[..n] == data[pos..pos + n];
      pos := pos + n;
    }

    method ReadU32() returns (r: Option<nat>)
      requires pos <= |data|
      modifies this
      ensures pos <= |data|
      ensures |old(Rest())| >= 4 ==> r == Some(U32Value(old(Rest()))) && Rest() == old(Rest())[4..]
      ensures |old(Rest())| < 4 ==> r == None
    {
      ghost var start := Rest();
      var bs := ReadFull(4);
      if bs.Some? {
        BigEndianPrefix(start, 4, 4);
      }
      r := if bs.None? then None else Some(U32Value(bs.value));
    }

    method ReadBytes() returns (r: Option<Bytes>)
      requires pos <= |data|
      modifies this
      ensures pos <= |data|
      ensures match ReadField(old(Rest()))
              case Bad => r == None
              case Got(value, rest) => r == Some(value) && Rest() == rest
    {
      ghost var start := Rest();
      var size := ReadU32();
      if size.None? || size.value > MAX_FIELD {
        return None;
      }
      r := ReadFull(size.value);
      assert size.value <= |start| - 4 ==> start[4..][..size.value] == start[4..4 + size.value];
    }
  }

  method LoadHeader(reader: Reader) returns (hash: Option<Bytes>)
    requires reader.pos <= |reader.data|
    modifies reader
    ensures reader.pos <= |reader.data|
    ensures match ReadHeader(old(reader.Rest()))
            case Bad => hash == None
            case Got(value, rest) => hash == Some(value) && reader.Rest() == rest
  {
    ghost var start := reader.Rest();
    var magic := reader.ReadFull(|MAGIC|);
    if magic != Some(MAGIC) {
      return None;
    }
    var version := reader.ReadU32();
    if version != Some(VERSION) {
      return None;
    }
    assert reader.Rest() == start[12..];
    hash := reader.ReadBytes();
    if hash.None? || !ValidHash(hash.value) {
      return None;
    }
  }

  method LoadEntry(reader: Reader) returns (entry: Option<Entry>)
    requires reader.pos <= |reader.data|
    modifies reader
    ensures reader.pos <= |reader.data|
    ensures match ReadEntry(old(reader.Rest()))
            case Bad => entry == None
            case Got(value, rest) => entry == Some(value) && reader.Rest() == rest
  {
    var key := reader.ReadBytes();
    if key.None? {
      return None;
    }
    var content := reader.ReadBytes();
    if content.None? || key.value == [] {
      return None;
    }
    entry := Some(Entry(key.value, content.value));
  }

  /** The objects that `count` more entries leave, after those in `before`. */
  ghost function Loaded(before: map<Bytes, Bytes>, bs: Bytes, count: nat): Read<map<Bytes, Bytes>> {
    var es := ReadEntries(bs, count);
    if es.Bad? then Bad else Got(AddObjects(before, es.value), es.rest)
  }

  /** The loop over the objects. */
  method LoadObjects(reader: Reader, count: nat) returns (objects: Option<map<Bytes, Bytes>>)
    requires reader.pos <= |reader.data|
    modifies reader
    ensures reader.pos <= |reader.data|
    ensures match Loaded(map[], old(reader.Rest()), count)
            case Bad => objects == None
            case Got(m, rest) => objects == Some(m) && reader.Rest() == rest
  {
    var result: map<Bytes, Bytes> := map[];
    for n := 0 to count
      invariant reader.pos <= |reader.data|
      invariant Loaded(result, reader.Rest(), count - n) == Loaded(map[], old(reader.Rest()), count)
    {
      LoadedStep(result, reader.Rest(), count - n);
      var entry := LoadEntry(reader);
      if entry.None? {
        return None;
      }
      result := result[entry.value.key := entry.value.content];
    }
    return Some(result);
  }

  lemma LoadedStep(before: map<Bytes, Bytes>, bs: Bytes, count: nat)
    requires count > 0
    ensures Loaded(before, bs, count) ==
      var e := ReadEntry(bs);
      if e.Bad? then Bad else Loaded(before[e.value.key := e.value.content], e.rest, count - 1)
  {
    var e := ReadEntry(bs);
    if e.Got? {
      var others := ReadEntries(e.rest, count - 1);
      if others.Got? {
        assert ([e.value] + others.value)[1..] == others.value;
      }
    }
  }

  method LoadCachedArtifactAny(data: Bytes) returns (result: Option<Artifact>)
    ensures result == Load(data)
  {
    var reader := new Reader(data);
    assert reader.Rest() == data;
    var hash := LoadHeader(reader);
    if hash.None? {
      return None;
    }
    var objects := LoadBody(reader);
    if objects.None? {
      return None;
    }
    return Some(Artifact(hash.value, objects.value));
  }

  /** The count and the objects, up to the end of the file. */
  method LoadBody(reader: Reader) returns (objects: Option<map<Bytes, Bytes>>)
    requires reader.pos <= |reader.data|
    modifies reader
    ensures
      var es := ReadBody(old(reader.Rest()));
      objects == if es.None? then None else Some(Objects(es.value))
  {
    var count := reader.ReadU32();
    if count.None? || count.value > MAX_OBJECTS {
      return None;
    }
    objects := LoadObjects(reader, count.value);
    if objects.None? || reader.pos != |reader.data| {
      return None;
    }
  }

  // ----- Writing -----

  /** The order of sort.Strings. */
  predicate Less(a: Bytes, b: Bytes) {
    if b == [] then false
    else if a == [] then true
    else a[0] < b[0] || (a[0] == b[0] && Less(a[1..], b[1..]))
  }

  /** The texts agree up to `i`, and there `a` ends or has the smaller byte. */
  ghost predicate PartsAt(a: Bytes, b: Bytes, i: nat) {
    i <= |a| && i < |b| && a[..i] == b[..i] && (i == |a| || a[i] < b[i])
  }

  /** It is the order of dictionaries, by bytes. */
  lemma {:induction false} LessExactly(a: Bytes, b: Bytes)
    ensures Less(a, b) <==> exists i: nat :: PartsAt(a, b, i)
  {
    if a == [] || b == [] {
      assert b != [] ==> PartsAt([], b, 0);
    } else {
      LessExactly(a[1..], b[1..]);
      if Less(a, b) {
        if a[0] < b[0] {
          assert PartsAt(a, b, 0);
        } else {
          var i: nat :| PartsAt(a[1..], b[1..], i);
          SharedHead(a, b, i);
        }
      }
      if i: nat :| PartsAt(a, b, i) && i > 0 {
        assert a[0] == a[..i][0] && b[0] == b[..i][0];
        assert a[1..][..i - 1] == a[..i][1..] && b[1..][..i - 1] == b[..i][1..];
        assert PartsAt(a[1..], b[1..], i - 1);
      }
    }
  }

  lemma SharedHead(a: Bytes, b: Bytes, i: nat)
    requires a != [] && b != [] && a[0] == b[0] && PartsAt(a[1..], b[1..], i)
    ensures PartsAt(a, b, i + 1)
  {
    assert a[..i + 1] == [a[0]] + a[1..][..i] && b[..i + 1] == [b[0]] + b[1..][..i];
  }

  lemma {:induction false} LessIsTotal(a: Bytes, b: Bytes)
    ensures a == b || Less(a, b) || Less(b, a)
    ensures !(Less(a, b) && Less(b, a)) && !Less(a, a)
  {
    if a != [] && b != [] {
      LessIsTotal(a[1..], b[1..]);
      assert a == [a[0]] + a[1..] && b == [b[0]] + b[1..];
    }
    if a != [] {
      LessIsTotal(a[1..], a[1..]);
    }
  }

  lemma {:induction false} LessIsTransitive(a: Bytes, b: Bytes, c: Bytes)
    requires Less(a, b) && Less(b, c)
    ensures Less(a, c)
  {
    if a != [] && a[0] == b[0] && b[0] == c[0] {
      LessIsTransitive(a[1..], b[1..], c[1..]);
    }
  }

  predicate Sorted(keys: seq<Bytes>) {
    forall i, j | 0 <= i < j < |keys| :: Less(keys[i], keys[j])
  }

  ghost predicate SortedKeysOf(keys: seq<Bytes>, objects: map<Bytes, Bytes>) {
    Sorted(keys) && forall k :: k in keys <==> k in objects
  }

  function Entries(keys: seq<Bytes>, objects: map<Bytes, Bytes>): (es: seq<Entry>)
    requires forall k | k in keys :: k in objects
    ensures |es| == |keys|
    ensures forall i | 0 <= i < |keys| :: es[i] == Entry(keys[i], objects[keys[i]])
  {
    seq(|keys|, i requires 0 <= i < |keys| => Entry(keys[i], objects[keys[i]]))
  }

  /** The writer accepts the artifact. */
  predicate Storable(a: Artifact) {
    ValidHash(a.implementationHash) && forall k | k in a.objects :: Fits(k) && Fits(a.objects[k])
  }

  ghost predicate Stored(a: Artifact, bs: Bytes)
    requires Storable(a)
  {
    exists keys :: SortedKeysOf(keys, a.objects) && bs == FileBytes(a.implementationHash, Entries(keys, a.objects))
  }

  /** Where a key goes among sorted keys. */
  method Insert(keys: seq<Bytes>, key: Bytes) returns (r: seq<Bytes>)
    requires Sorted(keys) && key !in keys
    ensures Sorted(r) && forall k :: k in r <==> k == key || k in keys
  {
    var i := 0;
    while i < |keys| && Less(keys[i], key)
      invariant 0 <= i <= |keys| && forall j | 0 <= j < i :: Less(keys[j], key)
    {
      i := i + 1;
    }
    r := keys[..i] + [key] + keys[i..];
    forall j | i <= j < |keys| ensures Less(key, keys[j]) {
      LessIsTotal(keys[i], key);
      assert Less(key, keys[i]);
      if i < j {
        LessIsTransitive(key, keys[i], keys[j]);
      }
    }
    forall k ensures k in r <==> k == key || k in keys {
      assert keys == keys[..i] + keys[i..];
    }
  }

  /** The keys of the map, in whatever order it yields them, sorted. */
  method SortedKeys(objects: map<Bytes, Bytes>) returns (keys: seq<Bytes>)
    ensures SortedKeysOf(keys, objects)
  {
    keys := [];
    var rest := objects.Keys;
    while rest != {}
      invariant rest <= objects.Keys && Sorted(keys)
      invariant forall k :: k in keys <==> k in objects.Keys - rest
      decreases rest
    {
      var k :| k in rest;
      keys := Insert(keys, k);
      rest := rest - {k};
    }
  }

  method StoreCachedArtifact(a: Artifact) returns (result: Option<Bytes>)
    ensures result.Some? <==> Storable(a)
    ensures result.Some? ==> Stored(a, result.value)
  {
    if !ValidHash(a.implementationHash) {
      return None;
    }
    var keys := SortedKeys(a.objects);
    var entries := WriteEntries(keys, a.objects);
    if entries.None? {
      return None;
    }
    return Some(Header(a.implementationHash) + (Count(|keys|) + entries.value));
  }

  /** The loop over the sorted keys; a field that is too large stops it. */
  method WriteEntries(keys: seq<Bytes>, objects: map<Bytes, Bytes>) returns (result: Option<Bytes>)
    requires forall k | k in keys :: k in objects
    ensures result.Some? <==> forall k | k in keys :: Fits(k) && Fits(objects[k])
    ensures result.Some? ==> result.value == EntriesBytes(Entries(keys, objects))
  {
    var data: Bytes := [];
    for n := 0 to |keys|
      invariant AllFit(Entries(keys[..n], objects)) && data == EntriesBytes(Entries(keys[..n], objects))
    {
      var content := objects[keys[n]];
      if |keys[n]| > MAX_FIELD || |content| > MAX_FIELD {
        assert keys[n] in keys;
        return None;
      }
      data := data + (Field(keys[n]) + Field(content));
      EntriesNext(keys, objects, n);
    }
    assert keys[..|keys|] == keys;
    var es := Entries(keys, objects);
    forall k | k in keys ensures Fits(k) && Fits(objects[k]) {
      var i :| 0 <= i < |keys| && keys[i] == k;
      assert Fits(es[i].key);
    }
    return Some(data);
  }

  lemma EntriesNext(keys: seq<Bytes>, objects: map<Bytes, Bytes>, n: nat)
    requires forall k | k in keys :: k in objects
    requires n < |keys| && AllFit(Entries(keys[..n], objects)) && Fits(keys[n]) && Fits(objects[keys[n]])
    ensures AllFit(Entries(keys[..n + 1], objects))
    ensures EntriesBytes(Entries(keys[..n + 1], objects)) ==
      EntriesBytes(Entries(keys[..n], objects)) + (Field(keys[n]) + Field(objects[keys[n]]))
  {
    var es, e := Entries(keys[..n], objects), Entry(keys[n], objects[keys[n]]);
    assert Entries(keys[..n + 1], objects) == es + [e];
    EntriesConcat(es, [e]);
    assert EntriesBytes([e]) == EntryBytes(e) + [];
  }

  // ----- Laws -----

  /** One entry of the list is read; an empty key stops the reader. */
  lemma ReadsFirst(es: seq<Entry>, rest: Bytes, count: nat)
    requires AllFit(es) && 0 < count <= |es|
    ensures ReadEntries(EntriesBytes(es) + rest, count) ==
      if es[0].key == [] then Bad else Prepended(es[0], ReadEntries(EntriesBytes(es[1..]) + rest, count - 1))
  {
    var bs, tail := EntriesBytes(es) + rest, EntriesBytes(es[1..]) + rest;
    Associates(EntryBytes(es[0]), EntriesBytes(es[1..]), rest);
    EntryRoundTrip(es[0], tail);
    assert ReadEntry(bs) == if es[0].key == [] then Bad else Got(es[0], tail);
  }

  lemma {:induction false} EntriesRoundTrip(es: seq<Entry>, rest: Bytes)
    requires AllFit(es) && NoEmptyKey(es)
    ensures ReadEntries(EntriesBytes(es) + rest, |es|) == Got(es, rest)
  {
    if es == [] {
      assert EntriesBytes(es) + rest == rest;
    } else {
      EntriesRoundTrip(es[1..], rest);
      HeadAndTail(es, rest);
      ReadsFirst(es, rest, |es|);
    }
  }

  lemma HeadAndTail(es: seq<Entry>, rest: Bytes)
    requires es != [] && es[0].key != []
    ensures Prepended(es[0], Got(es[1..], rest)) == Got(es, rest)
  {
    assert [es[0]] + es[1..] == es;
  }

  predicate NoEmptyKey(es: seq<Entry>) {
    forall i | 0 <= i < |es| :: es[i].key != []
  }

  lemma {:induction false} EntriesConcat(es: seq<Entry>, others: seq<Entry>)
    requires AllFit(es) && AllFit(others)
    ensures AllFit(es + others) && EntriesBytes(es + others) == EntriesBytes(es) + EntriesBytes(others)
  {
    if es == [] {
      assert es + others == others;
    } else {
      EntriesConcat(es[1..], others);
      assert (es + others)[1..] == es[1..] + others;
      Associates(EntryBytes(es[0]), EntriesBytes(es[1..]), EntriesBytes(others));
    }
  }

  /** One of the first `count` keys is empty. */
  predicate EmptyWithin(es: seq<Entry>, count: nat)
    requires count <= |es|
  {
    count > 0 && (es[0].key == [] || EmptyWithin(es[1..], count - 1))
  }

  lemma {:induction false} EmptyWithinExactly(es: seq<Entry>, count: nat)
    requires count <= |es|
    ensures EmptyWithin(es, count) <==> exists i | 0 <= i < count :: es[i].key == []
    decreases count
  {
    if count > 0 {
      EmptyWithinExactly(es[1..], count - 1);
      if i :| 0 <= i < count && es[i].key == [] {
        assert i > 0 ==> es[1..][i - 1].key == [];
      }
      if i :| 0 <= i < count - 1 && es[1..][i].key == [] {
        assert es[i + 1].key == [];
      }
    }
  }

  lemma {:induction false} EmptyKeyStops(es: seq<Entry>, rest: Bytes, count: nat)
    requires AllFit(es) && count <= |es| && EmptyWithin(es, count)
    ensures ReadEntries(EntriesBytes(es) + rest, count).Bad?
    decreases count
  {
    if es[0].key != [] {
      EmptyKeyStops(es[1..], rest, count - 1);
    }
    ReadsFirst(es, rest, count);
  }

  predicate AllWhole(es: seq<Entry>) {
    forall i | 0 <= i < |es| :: EntryFits(es[i])
  }

  lemma {:induction false} EntriesUnique(bs: Bytes, count: nat)
    requires ReadEntries(bs, count).Got?
    ensures EntriesOf(bs, count, ReadEntries(bs, count))
  {
    if count == 0 {
      NoEntries(bs);
    } else {
      var first := ReadEntry(bs);
      EntryUnique(bs);
      EntriesUnique(first.rest, count - 1);
      PrependedUnique(bs, count, first, ReadEntries(first.rest, count - 1));
    }
  }

  lemma NoEntries(bs: Bytes)
    ensures EntriesOf(bs, 0, ReadEntries(bs, 0))
  {
    assert EntriesBytes([]) + bs == bs;
  }

  /** The bytes are those of so many entries, and what is left. */
  ghost predicate EntriesOf(bs: Bytes, count: nat, r: Read<seq<Entry>>) {
    match r
    case Bad => false
    case Got(es, rest) => |es| == count && AllWhole(es) && bs == EntriesBytes(es) + rest
  }

  lemma PrependedUnique(bs: Bytes, count: nat, first: Read<Entry>, others: Read<seq<Entry>>)
    requires EntryOf(bs, first) && count > 0 && EntriesOf(first.rest, count - 1, others)
    ensures EntriesOf(bs, count, Prepended(first.value, others))
  {
    var e := first.value;
    var all := [e] + others.value;
    assert all[0] == e && all[1..] == others.value;
    Associates(EntryBytes(e), EntriesBytes(others.value), others.rest);
  }

  lemma HeaderRoundTrip(hash: Bytes, rest: Bytes)
    requires ValidHash(hash)
    ensures ReadHeader(Header(hash) + rest) == Got(hash, rest)
  {
    var bs := Header(hash) + rest;
    assert bs[..8] == MAGIC;
    assert bs[8..] == U32(VERSION) + (Field(hash) + rest);
    U32RoundTrip(VERSION, Field(hash) + rest);
    assert bs[12..] == bs[8..][4..];
    FieldRoundTrip(hash, rest);
  }

  lemma HeaderUnique(bs: Bytes)
    requires ReadHeader(bs).Got?
    ensures var r := ReadHeader(bs); ValidHash(r.value) && bs == Header(r.value) + r.rest
  {
    var r := ReadField(bs[12..]);
    var field := Field(r.value);
    FieldUnique(bs[12..]);
    U32Unique(bs[8..]);
    assert bs[8..][4..] == bs[12..];
    assert bs == bs[..8] + bs[8..];
    Associates(U32(VERSION), field, r.rest);
    Associates(MAGIC, U32(VERSION) + field, r.rest);
  }

  /** A file as the reader accepts it: entries in any order, a repeated key allowed. */
  ghost predicate FileOf(bs: Bytes, a: Artifact, es: seq<Entry>) {
    && ValidHash(a.implementationHash) && |es| <= MAX_OBJECTS
    && AllWhole(es)
    && bs == FileBytes(a.implementationHash, es) && a.objects == Objects(es)
  }

  lemma AllRoundTrip(es: seq<Entry>, more: Bytes)
    requires AllFit(es) && NoEmptyKey(es)
    ensures ReadAll(EntriesBytes(es) + more, |es|) == if more == [] then Some(es) else None
  {
    EntriesRoundTrip(es, more);
  }

  lemma BodyRoundTrip(es: seq<Entry>, more: Bytes)
    requires AllFit(es) && |es| <= MAX_OBJECTS && NoEmptyKey(es)
    ensures ReadBody(Body(es) + more) == if more == [] then Some(es) else None
  {
    var bs, tail := Body(es) + more, EntriesBytes(es) + more;
    Associates(Count(|es|), EntriesBytes(es), more);
    CountRoundTrip(|es|, tail);
    assert ReadCount(bs) == Got(|es|, tail);
    AllRoundTrip(es, more);
  }

  lemma AllUnique(bs: Bytes, count: nat)
    requires ReadAll(bs, count).Some?
    ensures var es := ReadAll(bs, count).value;
      && |es| == count && AllWhole(es)
      && bs == EntriesBytes(es)
  {
    EntriesUnique(bs, count);
    var es := ReadAll(bs, count).value;
    assert EntriesBytes(es) + [] == EntriesBytes(es);
  }

  lemma BodyUnique(bs: Bytes)
    ensures ReadBody(bs).Some? ==>
      var es := ReadBody(bs).value;
      && |es| <= MAX_OBJECTS && AllWhole(es)
      && bs == Body(es)
  {
    if ReadBody(bs).Some? {
      CountUnique(bs);
      AllUnique(ReadCount(bs).rest, ReadCount(bs).value);
    }
  }

  lemma LoadsBody(hash: Bytes, body: Bytes)
    requires ValidHash(hash)
    ensures Load(Header(hash) + body) ==
      if ReadBody(body).None? then None else Some(Artifact(hash, Objects(ReadBody(body).value)))
  {
    HeaderRoundTrip(hash, body);
  }

  lemma LoadsFile(hash: Bytes, es: seq<Entry>, more: Bytes)
    requires ValidHash(hash) && AllFit(es) && |es| <= MAX_OBJECTS && NoEmptyKey(es)
    ensures Load(FileBytes(hash, es) + more) == if more == [] then Some(Artifact(hash, Objects(es))) else None
  {
    Associates(Header(hash), Body(es), more);
    LoadsBody(hash, Body(es) + more);
    BodyRoundTrip(es, more);
  }

  /** Exactly which files are accepted, and what they give. */
  lemma LoadAcceptsExactly(bs: Bytes, a: Artifact)
    ensures Load(bs) == Some(a) <==> exists es :: FileOf(bs, a, es)
  {
    if Load(bs) == Some(a) {
      var hash := ReadHeader(bs);
      HeaderUnique(bs);
      BodyUnique(hash.rest);
      assert FileOf(bs, a, ReadBody(hash.rest).value);
    }
    if es :| FileOf(bs, a, es) {
      LoadsFile(a.implementationHash, es, []);
      assert bs + [] == bs;
    }
  }

  /** An accepted file with anything after it is rejected. */
  lemma TrailingBytesRejected(bs: Bytes, more: Bytes)
    requires Load(bs).Some? && more != []
    ensures Load(bs + more) == None
  {
    var a := Load(bs).value;
    LoadAcceptsExactly(bs, a);
    var es :| FileOf(bs, a, es);
    LoadsFile(a.implementationHash, es, more);
  }

  /** Every strict prefix of an accepted file is rejected. */
  lemma PrefixesRejected(bs: Bytes, n: nat)
    requires Load(bs).Some? && n < |bs|
    ensures Load(bs[..n]) == None
  {
    assert bs == bs[..n] + bs[n..];
    if Load(bs[..n]).Some? {
      TrailingBytesRejected(bs[..n], bs[n..]);
    }
  }

  lemma SortedTail(keys: seq<Bytes>, k: Bytes)
    requires Sorted(keys) && keys != []
    ensures k in keys[1..] <==> k in keys && k != keys[0]
  {
    assert keys == [keys[0]] + keys[1..];
    if k in keys[1..] {
      var i :| 0 <= i < |keys[1..]| && keys[1..][i] == k;
      assert Less(keys[0], keys[i + 1]);
      LessIsTotal(keys[0], k);
    }
  }

  lemma {:induction false} SortedIsUnique(keys: seq<Bytes>, other: seq<Bytes>)
    requires Sorted(keys) && Sorted(other) && forall k :: k in keys <==> k in other
    ensures keys == other
  {
    assert other != [] ==> other[0] in keys;
    if keys != [] {
      assert keys[0] in other;
      var i :| 0 <= i < |other| && other[i] == keys[0];
      var j :| 0 <= j < |keys| && keys[j] == other[0];
      LessIsTotal(keys[0], other[0]);
      assert keys[0] == other[0];
      forall k ensures k in keys[1..] <==> k in other[1..] {
        SortedTail(keys, k);
        SortedTail(other, k);
      }
      SortedIsUnique(keys[1..], other[1..]);
      assert keys == [keys[0]] + keys[1..] && other == [other[0]] + other[1..];
    }
  }

  /** Numbers are written in four bytes, the most significant one first. */
  lemma U32Layout(n: nat)
    requires n < WORD
    ensures U32(n) == [n / 0x100_0000, n / 0x1_0000 % 256, n / 0x100 % 256, n % 256]
  {
    assert BigEndian(n / 0x100_0000 / 256, 0) == [];
    assert BigEndian(n / 0x100_0000, 1) == [n / 0x100_0000 % 256];
    assert n / 0x1_0000 / 256 == n / 0x100_0000 && n / 256 / 256 == n / 0x1_0000;
    assert BigEndian(n / 0x1_0000, 2) == [n / 0x100_0000, n / 0x1_0000 % 256];
    assert BigEndian(n / 256, 3) == [n / 0x100_0000, n / 0x1_0000 % 256, n / 256 % 256];
  }

  /** The file of one object, byte by byte: the magic, the version, the hash, the count, the key and the object. */
  lemma OneObjectLayout(hash: Bytes, key: Bytes, content: Bytes)
    requires ValidHash(hash) && |key| <= 0x4000_0000 && |content| <= 0x4000_0000
    ensures Storable(Artifact(hash, map[key := content]))
    ensures Stored(Artifact(hash, map[key := content]),
      [0x51, 0x4B, 0x41, 0x52, 0x54, 0x46, 0x30, 0x31] + [0, 0, 0, 5] + [0, 0, 0, 64] + hash + [0, 0, 0, 1]
      + U32(|key|) + key + U32(|content|) + content)
  {
    var e := Entry(key, content);
    SmallNumbers();
    assert Entries([key], map[key := content]) == [e];
    assert EntriesBytes([e]) == EntryBytes(e) + EntriesBytes([e][1..]) == EntryBytes(e);
    assert SortedKeysOf([key], map[key := content]);
    LayoutOf(hash, key, content);
  }

  lemma SmallNumbers()
    ensures U32(5) == [0, 0, 0, 5] && U32(64) == [0, 0, 0, 64] && U32(1) == [0, 0, 0, 1]
  {
    U32Layout(5);
    U32Layout(64);
    U32Layout(1);
  }

  lemma LayoutOf(hash: Bytes, key: Bytes, content: Bytes)
    requires ValidHash(hash) && Fits(key) && Fits(content)
    requires EntriesBytes([Entry(key, content)]) == EntryBytes(Entry(key, content))
    ensures FileBytes(hash, [Entry(key, content)])
      == MAGIC + U32(VERSION) + U32(64) + hash + U32(1) + U32(|key|) + key + U32(|content|) + content
  {
  }

  /** The order in which the map yields its keys does not show in the file. */
  lemma StoredIsUnique(a: Artifact, bs: Bytes, cs: Bytes)
    requires Storable(a) && Stored(a, bs) && Stored(a, cs)
    ensures bs == cs
  {
    var keys :| SortedKeysOf(keys, a.objects) && bs == FileBytes(a.implementationHash, Entries(keys, a.objects));
    var other :| SortedKeysOf(other, a.objects) && cs == FileBytes(a.implementationHash, Entries(other, a.objects));
    SortedIsUnique(keys, other);
  }

  /** What sorted entries leave at one key. */
  lemma {:induction false} EntriesObjectAt(
    before: map<Bytes, Bytes>, keys: seq<Bytes>, objects: map<Bytes, Bytes>, k: Bytes)
    requires forall x | x in keys :: x in objects
    ensures var m := AddObjects(before, Entries(keys, objects));
      && (k in m <==> k in before || k in keys)
      && (k in m ==> m[k] == if k in keys then objects[k] else before[k])
    decreases keys
  {
    if keys != [] {
      var first, others := keys[0], keys[1..];
      assert keys == [first] + others;
      assert Entries(keys, objects)[1..] == Entries(others, objects);
      EntriesObjectAt(before[first := objects[first]], others, objects, k);
    }
  }

  lemma {:induction false} SortedLength(keys: seq<Bytes>, s: set<Bytes>)
    requires Sorted(keys) && forall k :: k in keys <==> k in s
    ensures |keys| == |s|
  {
    if keys == [] {
      assert s == {} by {
        assert forall k :: k !in s;
      }
    } else {
      forall k ensures k in keys[1..] <==> k in s - {keys[0]} {
        SortedTail(keys, k);
      }
      SortedLength(keys[1..], s - {keys[0]});
    }
  }

  /**
    Decoding gives back what was stored exactly when the artifact has at most 1024
    objects and none of them has an empty key.
   */
  lemma StoreLoadRoundTrip(a: Artifact, bs: Bytes)
    requires Storable(a) && Stored(a, bs)
    ensures Load(bs) == Some(a) <==> |a.objects| <= 1024 && [] !in a.objects
  {
    var keys :| SortedKeysOf(keys, a.objects) && bs == FileBytes(a.implementationHash, Entries(keys, a.objects));
    var es := Entries(keys, a.objects);
    SortedLength(keys, a.objects.Keys);
    SortedObjects(keys, a.objects);
    if |a.objects| <= MAX_OBJECTS && [] !in a.objects {
      forall i | 0 <= i < |es| ensures es[i].key != [] {
        assert keys[i] in keys;
      }
      LoadsFile(a.implementationHash, es, []);
      assert bs + [] == bs;
    } else {
      assert [] in keys ==> exists i | 0 <= i < |es| :: es[i].key == [];
      RejectsFile(a.implementationHash, es);
    }
  }

  lemma SortedObjects(keys: seq<Bytes>, objects: map<Bytes, Bytes>)
    requires SortedKeysOf(keys, objects)
    ensures Objects(Entries(keys, objects)) == objects
  {
    var m := Objects(Entries(keys, objects));
    forall k ensures (k in m <==> k in objects) && (k in m ==> m[k] == objects[k]) {
      EntriesObjectAt(map[], keys, objects, k);
    }
    assert m.Keys == objects.Keys;
  }

  /** A file with too many objects, or with an empty key among them, is rejected. */
  lemma RejectsFile(hash: Bytes, es: seq<Entry>)
    requires ValidHash(hash) && AllFit(es)
    requires |es| > MAX_OBJECTS || exists i | 0 <= i < |es| :: es[i].key == []
    ensures Load(FileBytes(hash, es)) == None
  {
    LoadsBody(hash, Body(es));
    RejectsBody(es);
  }

  lemma RejectsBody(es: seq<Entry>)
    requires AllFit(es) && (|es| > MAX_OBJECTS || exists i | 0 <= i < |es| :: es[i].key == [])
    ensures ReadBody(Body(es)).None?
  {
    var count := Wrapped(|es|);
    CountRoundTrip(|es|, EntriesBytes(es));
    if count <= MAX_OBJECTS {
      StopsEarly(es, count);
    }
  }

  lemma EntriesNotEmpty(es: seq<Entry>)
    requires AllFit(es) && es != []
    ensures EntriesBytes(es) != []
  {
    assert |EntryBytes(es[0])| >= 4;
  }

  /** Bytes are left after `count` entries. */
  lemma LeavesBytes(es: seq<Entry>, count: nat)
    requires AllFit(es) && count < |es| && NoEmptyKey(es[..count])
    ensures ReadAll(EntriesBytes(es), count).None?
  {
    var read, left := es[..count], es[count..];
    assert es == read + left;
    EntriesConcat(read, left);
    EntriesRoundTrip(read, EntriesBytes(left));
    EntriesNotEmpty(left);
  }

  lemma NoneIsEmpty(es: seq<Entry>, count: nat)
    requires count <= |es| && !EmptyWithin(es, count)
    ensures NoEmptyKey(es[..count]) && forall i | 0 <= i < count :: es[i].key != []
  {
    EmptyWithinExactly(es, count);
  }

  lemma EmptyStopsAll(es: seq<Entry>, count: nat)
    requires AllFit(es) && count <= |es| && EmptyWithin(es, count)
    ensures ReadAll(EntriesBytes(es), count).None?
  {
    EmptyKeyStops(es, [], count);
    assert EntriesBytes(es) + [] == EntriesBytes(es);
  }

  lemma StopsEarly(es: seq<Entry>, count: nat)
    requires AllFit(es) && count <= |es|
    requires count < |es| || exists i | 0 <= i < |es| :: es[i].key == []
    ensures ReadAll(EntriesBytes(es), count).None?
  {
    if EmptyWithin(es, count) {
      EmptyStopsAll(es, count);
    } else {
      NoneIsEmpty(es, count);
      LeavesBytes(es, count);
    }
  }

  /** Different artifacts never share a file. */
  lemma StoreIsInjective(a: Artifact, b: Artifact, bs: Bytes)
    requires Storable(a) && Storable(b) && Stored(a, bs) && Stored(b, bs)
    ensures a == b
  {
    var keys :| SortedKeysOf(keys, a.objects) && bs == FileBytes(a.implementationHash, Entries(keys, a.objects));
    var other :| SortedKeysOf(other, b.objects) && bs == FileBytes(b.implementationHash, Entries(other, b.objects));
    SameFile(a.implementationHash, Entries(keys, a.objects), b.implementationHash, Entries(other, b.objects));
    SortedObjects(keys, a.objects);
    SortedObjects(other, b.objects);
  }

  /** A file determines its hash and its entries, however many and whatever their keys. */
  lemma SameFile(hash: Bytes, es: seq<Entry>, other: Bytes, fs: seq<Entry>)
    requires ValidHash(hash) && ValidHash(other) && AllFit(es) && AllFit(fs)
    requires FileBytes(hash, es) == FileBytes(other, fs)
    ensures hash == other && es == fs
  {
    HeaderRoundTrip(hash, Body(es));
    HeaderRoundTrip(other, Body(fs));
    assert Body(es) == Body(fs);
    assert EntriesBytes(es) == Body(es)[4..] && EntriesBytes(fs) == Body(fs)[4..];
    SameEntries(es, fs);
  }

  lemma {:induction false} SameEntries(es: seq<Entry>, fs: seq<Entry>)
    requires AllFit(es) && AllFit(fs) && EntriesBytes(es) == EntriesBytes(fs)
    ensures es == fs
  {
    if es == [] || fs == [] {
      if es != [] { EntriesNotEmpty(es); }
      if fs != [] { EntriesNotEmpty(fs); }
    } else {
      FirstFields(es);
      FirstFields(fs);
      SameEntries(es[1..], fs[1..]);
      assert es == [es[0]] + es[1..] && fs == [fs[0]] + fs[1..];
    }
  }

  /** The first two fields of the bytes are the first entry's. */
  lemma FirstFields(es: seq<Entry>)
    requires AllFit(es) && es != []
    ensures
      var tail := Field(es[0].content) + EntriesBytes(es[1..]);
      && ReadField(EntriesBytes(es)) == Got(es[0].key, tail)
      && ReadField(tail) == Got(es[0].content, EntriesBytes(es[1..]))
  {
    var tail := EntriesBytes(es[1..]);
    FieldRoundTrip(es[0].key, Field(es[0].content) + tail);
    FieldRoundTrip(es[0].content, tail);
    Associates(Field(es[0].key), Field(es[0].content), tail);
  }
}
