/**
 The walk over the Multiboot2 boot information: a list of tags, each padded to eight
 bytes, that ends with a tag of type 0 (section 3.6 of the Multiboot2 Specification 2.0).
 */
module Multiboot {
  import opened Bytes
  import opened Words
  import opened Wrappers

  const BASIC_MEMINFO := 4
  const ELF_SECTIONS := 9

  // ---------- 32-bit little-endian fields ----------

  function LE32(n: nat): (s: seq<Byte>)
    requires n < 0x1_0000_0000
    ensures |s| == 4
  {
    [n % 0x100, n / 0x100 % 0x100, n / 0x100 / 0x100 % 0x100, n / 0x100 / 0x100 / 0x100]
  }

  function U32At(mem: seq<Byte>, off: nat): (n: nat)
    requires off + 4 <= |mem|
    ensures n < 0x1_0000_0000
  {
    var a: int, b: int, c: int, d: int := mem[off], mem[off + 1], mem[off + 2], mem[off + 3];
    a + 0x100 * (b + 0x100 * (c + 0x100 * d))
  }

  lemma U32RoundTrip(mem: seq<Byte>, off: nat, n: nat)
    requires n < 0x1_0000_0000 && off + 4 <= |mem| && mem[off..off + 4] == LE32(n)
    ensures U32At(mem, off) == n
  {
    var s := mem[off..off + 4];
    assert mem[off] == s[0] && mem[off + 1] == s[1] && mem[off + 2] == s[2] && mem[off + 3] == s[3];
  }

  /** The first byte counts once, the others 2^8, 2^16 and 2^24 times. */
  lemma U32Weights(mem: seq<Byte>, off: nat, k: nat, b: Byte)
    requires off + 4 <= |mem| && k < 4
    ensures U32At(mem[off + k := b], off) - U32At(mem, off)
            == [1, 0x100, 0x1_0000, 0x100_0000][k] * (b - mem[off + k])
    ensures mem[off..off + 4] == [0, 0, 0, 0] ==> U32At(mem, off) == 0
  {
    assert k == 0 || k == 1 || k == 2 || k == 3;
    var s := mem[off..off + 4];
    assert mem[off] == s[0] && mem[off + 1] == s[1] && mem[off + 2] == s[2] && mem[off + 3] == s[3];
  }

  /** The next multiple of eight. */
  function Padded(n: nat): (r: nat)
    ensures n <= r < n + 8 && r % 8 == 0
  {
    (n + 7) / 8 * 8
  }

  /** `round_up_8` on 32-bit numbers; the sum wraps for the last seven of them. */
  method RoundUp32(num: nat) returns (r: nat)
    requires num < 0x1_0000_0000
    ensures num <= 0x1_0000_0000 - 8 ==> r == Padded(num)
    ensures num > 0x1_0000_0000 - 8 ==> r == 0
  {
    var sum := (num + 7) % 0x1_0000_0000;
    r := MaskLow3(sum);
  }

  // ---------- tags and their layout ----------

  /** A tag and the bytes, of any value, that pad it to a multiple of eight. */
  datatype Tag = Tag(typ: nat, body: seq<Byte>, pad: seq<Byte>) {
    function Size(): nat {
      8 + |body|
    }
  }

  /** A proper tag: not the end tag, sizes that fit 32 bits, and room for the structure
      that the kernel copies out of it. */
  predicate WellFormed(t: Tag) {
    && 0 < t.typ < 0x1_0000_0000
    && t.Size() <= 0x1_0000_0000 - 8
    && |t.pad| == Padded(t.Size()) - t.Size()
    && (t.typ == BASIC_MEMINFO ==> t.Size() >= 16)
    && (t.typ == ELF_SECTIONS ==> t.Size() >= 20)
  }

  function Image(t: Tag): (s: seq<Byte>)
    requires WellFormed(t)
    ensures |s| == Padded(t.Size())
  {
    LE32(t.typ) + LE32(t.Size()) + t.body + t.pad
  }

  predicate AllWellFormed(tags: seq<Tag>) {
    forall i :: 0 <= i < |tags| ==> WellFormed(tags[i])
  }

  const END_TAG: seq<Byte> := LE32(0) + LE32(8)

  /** The tags one after the other, then the end tag. */
  function Images(tags: seq<Tag>): seq<Byte>
    requires AllWellFormed(tags)
  {
    if tags == [] then END_TAG else Image(tags[0]) + Images(tags[1..])
  }

  /** Where the tags start, and last the end tag. */
  function Starts(off: nat, tags: seq<Tag>): seq<nat>
    requires AllWellFormed(tags)
    decreases |tags|
  {
    if tags == [] then [off] else [off] + Starts(off + Padded(tags[0].Size()), tags[1..])
  }

  // ---------- what the kernel remembers ----------

  datatype BootInfo = BootInfo(meminfo: Option<seq<Byte>>, elfSections: Option<seq<Byte>>)

  function Remember(info: BootInfo, t: Tag): BootInfo
    requires WellFormed(t)
  {
    if t.typ == BASIC_MEMINFO then info.(meminfo := Some(Image(t)[..16]))
    else if t.typ == ELF_SECTIONS then info.(elfSections := Some(Image(t)[..20]))
    else info
  }

  function RememberAll(info: BootInfo, tags: seq<Tag>): BootInfo
    requires AllWellFormed(tags)
    decreases |tags|
  {
    if tags == [] then info else RememberAll(Remember(info, tags[0]), tags[1..])
  }

  function Rest(tags: seq<Tag>): seq<Tag> {
    if tags == [] then [] else tags[1..]
  }

  function Remembered(info: BootInfo, typ: nat): Option<seq<Byte>> {
    if typ == BASIC_MEMINFO then info.meminfo else info.elfSections
  }

  /** The bytes of a tag that the kernel copies: its fixed-size structure. */
  function Fields(t: Tag): seq<Byte>
    requires WellFormed(t) && (t.typ == BASIC_MEMINFO || t.typ == ELF_SECTIONS)
  {
    Image(t)[..if t.typ == BASIC_MEMINFO then 16 else 20]
  }

  /** For either type the last tag of that type wins; without one nothing changes. */
  lemma {:induction false} LastTagWins(info: BootInfo, tags: seq<Tag>, typ: nat, i: nat)
    requires AllWellFormed(tags) && i <= |tags| && (typ == BASIC_MEMINFO || typ == ELF_SECTIONS)
    requires i < |tags| ==> tags[i].typ == typ
    requires forall j :: i < j < |tags| ==> tags[j].typ != typ
    requires i == |tags| ==> forall j :: 0 <= j < |tags| ==> tags[j].typ != typ
    ensures Remembered(RememberAll(info, tags), typ)
            == if i < |tags| then Some(Fields(tags[i])) else Remembered(info, typ)
    decreases |tags|
  {
    if tags != [] {
      var rest := tags[1..];
      var next := Remember(info, tags[0]);
      if i == 0 {
        LastTagWins(next, rest, typ, |rest|);
      } else {
        LastTagWins(next, rest, typ, i - 1);
      }
    }
  }

  // ---------- the walk ----------

  /** From offset `cur` on, the memory holds these tags and the end tag. */
  ghost predicate Holds(mem: seq<Byte>, cur: nat, tags: seq<Tag>) {
    AllWellFormed(tags) && cur <= |mem| && Images(tags) <= mem[cur..]
  }

  function TagType(tags: seq<Tag>): nat {
    if tags == [] then 0 else tags[0].typ
  }

  lemma ReadHeader(mem: seq<Byte>, cur: nat, tags: seq<Tag>)
    requires Holds(mem, cur, tags)
    ensures cur + 8 <= |mem|
    ensures U32At(mem, cur) == TagType(tags)
    ensures tags != [] ==> U32At(mem, cur + 4) == tags[0].Size()
  {
    var here := mem[cur..];
    var image := Images(tags);
    var typ, size := TagType(tags), if tags == [] then 8 else tags[0].Size();
    assert |image| >= 8 && image[..4] == LE32(typ) && image[4..8] == LE32(size);
    assert here[..4] == image[..4] && here[4..8] == image[4..8];
    assert mem[cur..cur + 4] == here[..4] && mem[cur + 4..cur + 8] == here[4..8];
    U32RoundTrip(mem, cur, typ);
    U32RoundTrip(mem, cur + 4, size);
  }

  lemma NextTag(mem: seq<Byte>, cur: nat, tags: seq<Tag>)
    requires Holds(mem, cur, tags) && tags != []
    ensures Holds(mem, cur + Padded(tags[0].Size()), tags[1..])
  {
    var n := Padded(tags[0].Size());
    var here := mem[cur..];
    assert Images(tags) == Image(tags[0]) + Images(tags[1..]);
    assert here == Images(tags) + here[|Images(tags)|..];
    assert here[n..] == Images(tags[1..]) + here[|Images(tags)|..];
    assert mem[cur + n..] == here[n..];
  }

  lemma CopyFields(mem: seq<Byte>, cur: nat, tags: seq<Tag>, n: nat)
    requires Holds(mem, cur, tags) && tags != [] && n <= tags[0].Size()
    ensures cur + n <= |mem| && n <= |Image(tags[0])| && mem[cur..cur + n] == Image(tags[0])[..n]
  {
    var here := mem[cur..];
    assert here[..n] == Images(tags)[..n] == Image(tags[0])[..n];
    assert mem[cur..cur + n] == here[..n];
  }

  /** Reads the type and size of the tag at `cur`. */
  method ReadTag(mem: seq<Byte>, cur: nat, ghost tags: seq<Tag>) returns (typ: nat, size: nat)
    requires Holds(mem, cur, tags)
    ensures typ == TagType(tags) && size < 0x1_0000_0000
    ensures tags != [] ==> size == tags[0].Size()
  {
    ReadHeader(mem, cur, tags);
    typ, size := U32At(mem, cur), U32At(mem, cur + 4);
  }

  /** A tag of type 4 or 9 has been copied from where it lies; nothing else has changed. */
  ghost predicate Dispatched(info: BootInfo, r: BootInfo, mem: seq<Byte>, cur: nat, typ: nat) {
    && (if typ == 4 then CopiedFrom(r.meminfo, mem, cur, 16) else r.meminfo == info.meminfo)
    && (if typ == 9 then CopiedFrom(r.elfSections, mem, cur, 20) else r.elfSections == info.elfSections)
  }

  /** `parse_tag_type` */
  method ParseTag(info: BootInfo, mem: seq<Byte>, cur: nat, ghost tags: seq<Tag>) returns (r: BootInfo)
    requires Holds(mem, cur, tags)
    ensures r == if tags == [] then info else Remember(info, tags[0])
    ensures Dispatched(info, r, mem, cur, TagType(tags))
  {
    var typ, _ := ReadTag(mem, cur, tags);
    r := info;
    if typ == BASIC_MEMINFO {
      CopyFields(mem, cur, tags, 16);
      r := info.(meminfo := Some(mem[cur..cur + 16]));
    } else if typ == ELF_SECTIONS {
      CopyFields(mem, cur, tags, 20);
      r := info.(elfSections := Some(mem[cur..cur + 20]));
    }
  }

  // ---------- what the walk finds ----------

  lemma {:induction false} StartsAre(off: nat, tags: seq<Tag>, i: nat)
    requires AllWellFormed(tags) && i < |tags|
    ensures var s := Starts(off, tags);
      && |s| == |tags| + 1 && s[0] == off
      && s[i] + 8 + |tags[i].body| <= s[i + 1] < s[i] + 8 + |tags[i].body| + 8
      && (s[i + 1] - s[i]) % 8 == 0
    decreases |tags|
  {
    var next, rest := off + Padded(tags[0].Size()), tags[1..];
    if i > 0 {
      StartsAre(next, rest, i - 1);
      assert Starts(off, tags)[1..] == Starts(next, rest);
    } else if rest != [] {
      StartsAre(next, rest, 0);
    }
  }

  lemma {:induction false} HoldsFrom(mem: seq<Byte>, off: nat, tags: seq<Tag>, i: nat)
    requires Holds(mem, off, tags) && i <= |tags|
    ensures |Starts(off, tags)| == |tags| + 1 && Holds(mem, Starts(off, tags)[i], tags[i..])
    decreases |tags|
  {
    if tags != [] {
      NextTag(mem, off, tags);
      HoldsFrom(mem, off + Padded(tags[0].Size()), tags[1..], if i > 0 then i - 1 else 0);
      if i > 0 {
        assert tags[1..][i - 1..] == tags[i..];
      }
    }
    assert tags[0..] == tags;
  }

  /** In memory each tag starts with its type and size, followed by its body, and the list
      ends with type 0 and size 8. */
  lemma TagInMemory(mem: seq<Byte>, off: nat, tags: seq<Tag>, i: nat)
    requires Holds(mem, off, tags) && i <= |tags|
    ensures |Starts(off, tags)| == |tags| + 1
    ensures var s, n := Starts(off, tags)[i], if i < |tags| then 8 + |tags[i].body| else 8;
      && s + n <= |mem|
      && U32At(mem, s) == (if i < |tags| then tags[i].typ else 0)
      && U32At(mem, s + 4) == n
      && (i < |tags| ==> mem[s + 8..s + n] == tags[i].body)
  {
    HoldsFrom(mem, off, tags, i);
    var s := Starts(off, tags)[i];
    ReadHeader(mem, s, tags[i..]);
    if i < |tags| {
      var n := tags[i].Size();
      CopyFields(mem, s, tags[i..], n);
      assert mem[s + 8..s + n] == mem[s..s + n][8..];
      assert Image(tags[i])[..n][8..] == tags[i].body;
    }
  }

  /** Tag i is the last one of its type, not counting the first tag of all. */
  predicate LastOf(tags: seq<Tag>, typ: nat, i: nat) {
    0 < i < |tags| && tags[i].typ == typ && forall j :: i < j < |tags| ==> tags[j].typ != typ
  }

  predicate NoneOf(tags: seq<Tag>, typ: nat) {
    forall j :: 0 < j < |tags| ==> tags[j].typ != typ
  }

  predicate CopiedFrom(r: Option<seq<Byte>>, mem: seq<Byte>, start: nat, n: nat) {
    start + n <= |mem| && r == Some(mem[start..start + n])
  }

  /** What is remembered for a type: a copy of the last tag of that type after the first
      tag, where it lies in memory, or nothing. */
  ghost predicate Finds(mem: seq<Byte>, tags: seq<Tag>, typ: nat, n: nat, r: Option<seq<Byte>>)
    requires AllWellFormed(tags)
  {
    && (forall i: nat :: LastOf(tags, typ, i) && i < |Starts(8, tags)| ==> CopiedFrom(r, mem, Starts(8, tags)[i], n))
    && (NoneOf(tags, typ) ==> r == None)
  }

  lemma RememberedIsFound(mem: seq<Byte>, tags: seq<Tag>, typ: nat, n: nat)
    requires Holds(mem, 8, tags) && ((typ == 4 && n == 16) || (typ == 9 && n == 20))
    ensures Finds(mem, tags, typ, n, Remembered(RememberAll(NOTHING, Rest(tags)), typ))
  {
    var rest := Rest(tags);
    forall i: nat | LastOf(tags, typ, i) && i < |Starts(8, tags)|
      ensures CopiedFrom(Remembered(RememberAll(NOTHING, rest), typ), mem, Starts(8, tags)[i], n)
    {
      LastTagWins(NOTHING, rest, typ, i - 1);
      HoldsFrom(mem, 8, tags, i);
      CopyFields(mem, Starts(8, tags)[i], tags[i..], n);
    }
    if NoneOf(tags, typ) {
      LastTagWins(NOTHING, rest, typ, |rest|);
    }
  }

  /** Serialised boot information: total size, a reserved word, the tags, the end tag. */
  ghost predicate IsBootInformation(mem: seq<Byte>, tags: seq<Tag>) {
    && Holds(mem, 8, tags)
    && 8 + |Images(tags)| < 0x1_0000_0000
    && U32At(mem, 0) == 8 + |Images(tags)|
  }

  const NOTHING := BootInfo(None, None)

  /** The state of the walk at offset `cur`, where the tags `left` are still to come. */
  ghost predicate Walking(
    mem: seq<Byte>, tags: seq<Tag>, cur: nat, left: seq<Tag>, info: BootInfo, headerSize: nat, visited: seq<nat>)
  {
    && AllWellFormed(tags) && Holds(mem, cur, left)
    && RememberAll(info, Rest(left)) == RememberAll(NOTHING, Rest(tags))
    && headerSize == 8 + |Images(left)|
    && headerSize < 0x1_0000_0000
    && visited + Starts(cur, left) == Starts(8, tags)
  }

  lemma WalkStep(
    mem: seq<Byte>, tags: seq<Tag>, cur: nat, left: seq<Tag>, info: BootInfo, headerSize: nat, visited: seq<nat>)
    requires Walking(mem, tags, cur, left, info, headerSize, visited) && left != []
    ensures var n := Padded(left[0].Size());
      && n <= headerSize
      && AllWellFormed(left[1..])
      && var next := if left[1..] == [] then info else Remember(info, left[1..][0]);
         Walking(mem, tags, cur + n, left[1..], next, headerSize - n, visited + [cur])
  {
    var n := Padded(left[0].Size());
    NextTag(mem, cur, left);
    assert Images(left) == Image(left[0]) + Images(left[1..]);
    assert visited + [cur] + Starts(cur + n, left[1..]) == visited + Starts(cur, left);
  }

  /** Subtraction of 32-bit numbers. */
  function SubU32(a: nat, b: nat): (d: nat)
    requires a < 0x1_0000_0000
    ensures b <= a ==> d == a - b
  {
    (a - b) % 0x1_0000_0000
  }

  /** One round: advance by the padded size, then dispatch the tag reached. */
  method Advance(
    mem: seq<Byte>, cur: nat, size: nat, info: BootInfo, headerSize: nat,
    ghost tags: seq<Tag>, ghost left: seq<Tag>, ghost visited: seq<nat>)
    returns (cur': nat, info': BootInfo, headerSize': nat)
    requires Walking(mem, tags, cur, left, info, headerSize, visited)
    requires left != [] && size == left[0].Size()
    ensures Walking(mem, tags, cur', left[1..], info', headerSize', visited + [cur])
  {
    WalkStep(mem, tags, cur, left, info, headerSize, visited);
    var rounded := RoundUp32(size);
    assert rounded <= headerSize < 0x1_0000_0000;
    headerSize' := SubU32(headerSize, rounded);
    cur' := cur + rounded;
    info' := ParseTag(info, mem, cur', left[1..]);
  }

  /** The walk advances before it dispatches, so the first tag is never remembered. */
  method Walk(mem: seq<Byte>, ghost tags: seq<Tag>)
    returns (info: BootInfo, headerSize: nat, ghost visited: seq<nat>)
    requires IsBootInformation(mem, tags)
    ensures info == RememberAll(NOTHING, Rest(tags))
    ensures headerSize == 16
    ensures visited == Starts(8, tags)
    ensures Finds(mem, tags, 4, 16, info.meminfo) && Finds(mem, tags, 9, 20, info.elfSections)
  {
    RememberedIsFound(mem, tags, 4, 16);
    RememberedIsFound(mem, tags, 9, 20);
    info, headerSize := NOTHING, U32At(mem, 0);
    var cur: nat := 8;
    ghost var left := tags;
    visited := [];
    var typ, size := ReadTag(mem, cur, left);
    while typ != 0
      invariant Walking(mem, tags, cur, left, info, headerSize, visited)
      invariant typ == TagType(left) && (left != [] ==> size == left[0].Size())
      decreases |left|
    {
      ghost var from := cur;
      cur, info, headerSize := Advance(mem, cur, size, info, headerSize, tags, left, visited);
      visited, left := visited + [from], left[1..];
      typ, size := ReadTag(mem, cur, left);
    }
    visited := visited + [cur];
  }
}
