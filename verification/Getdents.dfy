/** Reading a directory in pieces: the RootFS arm of `file_getdents64` (kernel/src/fs/vfs.rs)
    prints as many records as fit the caller's buffer and remembers how far it got. The
    parser that user space applies to the buffer is the inverse of the printer.
  */
module Getdents {
  import opened Basics
  import opened RootFS
  import opened Bits

  type Byte = nat

  /** A directory entry: what the printer prints and the parser recovers. */
  datatype Entry = Entry(ino: nat, kind: Byte, name: seq<Byte>)

  const NAME_OFFSET: nat := 19
  /** Bytes of the fields for the inode number and the offset, and for the record length. */
  const WIDE: nat := 8
  const NARROW: nat := 2

  /** `d_type` of a node. */
  function TypeByte(k: Kind): Byte {
    match k
    case Directory => 4
    case RegularFile => 8
    case SymbolicLink => 10
  }

  /** The entry printed for a node. */
  function EntryOf(n: Node): Entry {
    Entry(n.ino, TypeByte(n.kind), seq(|n.name|, i requires 0 <= i < |n.name| => n.name[i] as nat))
  }

  /** What the calls list: the children of a directory in insertion order. */
  function Listing(nodes: Graph, dir: nat): seq<Entry>
    requires Closed(nodes) && dir < |nodes|
  {
    var cs := nodes[dir].children;
    seq(|cs|, i requires 0 <= i < |cs| => EntryOf(nodes[cs[i]]))
  }

  /** A directory that only gains entries keeps the listed ones in place, so an offset into
      the old listing means the same in the new one. */
  lemma ListingGrows(nodes: Graph, nodes': Graph, dir: nat)
    requires Closed(nodes) && Closed(nodes') && Extends(nodes, nodes') && dir < |nodes|
    ensures Listing(nodes, dir) <= Listing(nodes', dir)
  {
    var cs, cs' := nodes[dir].children, nodes'[dir].children;
    forall i | 0 <= i < |cs|
      ensures Listing(nodes', dir)[i] == Listing(nodes, dir)[i]
    {
      assert cs'[i] == cs[i];
      assert nodes'[cs[i]] == nodes[cs[i]].(children := nodes'[cs[i]].children);
    }
  }

  /** Record length: header, name and terminating zero, rounded up to a multiple of 8. */
  function RecordLength(e: Entry): (r: nat)
    ensures r % 8 == 0 && 20 + |e.name| <= r < 28 + |e.name|
  {
    (NAME_OFFSET + |e.name| + 1 + 7) / 8 * 8
  }

  /** What an entry that user space has read says about a node: the number modulo 2^64, the type as
      4, 8 or 10, and the name up to its first zero. */
  ghost predicate Shows(e: Entry, n: Node) {
    && e.ino == n.ino % 0x1_0000_0000_0000_0000
    && e.kind == (if n.kind == Directory then 4 else if n.kind == RegularFile then 8 else 10)
    && |e.name| <= |n.name|
    && (forall i | 0 <= i < |e.name| :: e.name[i] == n.name[i] as nat != 0)
    && (|e.name| < |n.name| ==> n.name[|e.name|] as nat == 0)
  }

  // ----- little-endian numbers

  /** The first number that does not fit in `k` bytes. */
  function Limit(k: nat): (r: nat)
    ensures r > 0
  {
    if k == 0 then 1 else 0x100 * Limit(k - 1)
  }

  function ToBytes(v: nat, k: nat): (r: seq<Byte>)
    ensures |r| == k
  {
    if k == 0 then [] else [v % 0x100] + ToBytes(v / 0x100, k - 1)
  }

  function FromBytes(bs: seq<Byte>): nat {
    if bs == [] then 0 else bs[0] + 0x100 * FromBytes(bs[1..])
  }

  /** Bytes read back as the number, cut to the width of the field. */
  lemma {:induction false} BytesRoundTrip(v: nat, k: nat)
    ensures FromBytes(ToBytes(v, k)) == v % Limit(k)
  {
    if k > 0 {
      BytesRoundTrip(v / 0x100, k - 1);
      assert ToBytes(v, k)[1..] == ToBytes(v / 0x100, k - 1);
      LowDigits(v, Limit(k - 1));
    }
  }

  lemma LowDigits(v: nat, d: nat)
    requires d > 0
    ensures v % (0x100 * d) == v % 0x100 + 0x100 * ((v / 0x100) % d)
  {
    var q, r := (v / 0x100) / d, (v / 0x100) % d;
    assert v == 0x100 * (q * d + r) + v % 0x100;
    assert v == q * (0x100 * d) + (0x100 * r + v % 0x100);
    ModUnique(v, 0x100 * d, q, 0x100 * r + v % 0x100);
  }

  // ----- records in a buffer

  /** What is stored for an entry whose record ends at `next`. */
  function Image(e: Entry, next: nat): (r: seq<Byte>)
    ensures |r| == NAME_OFFSET + |e.name| + 1 <= RecordLength(e)
  {
    ToBytes(e.ino, WIDE) + ToBytes(next, WIDE) + (ToBytes(RecordLength(e), NARROW) + [e.kind]) + (e.name + [0])
  }

  /** The buffer holds the record of `e` at offset `o`. */
  ghost predicate RecordAt(bs: seq<Byte>, o: nat, e: Entry) {
    var next := o + RecordLength(e);
    next <= |bs| && Image(e, next) <= bs[o..next]
  }

  function TotalLength(es: seq<Entry>): nat {
    if es == [] then 0 else RecordLength(es[0]) + TotalLength(es[1..])
  }

  ghost predicate RecordsAt(bs: seq<Byte>, o: nat, es: seq<Entry>)
    decreases |es|
  {
    es != [] ==> RecordAt(bs, o, es[0]) && RecordsAt(bs, o + RecordLength(es[0]), es[1..])
  }

  lemma {:induction false} TotalAppend(es: seq<Entry>, e: Entry)
    ensures TotalLength(es + [e]) == TotalLength(es) + RecordLength(e)
  {
    if es == [] {
      assert es + [e] == [e] && [e][1..] == [];
    } else {
      assert (es + [e])[1..] == es[1..] + [e];
      TotalAppend(es[1..], e);
    }
  }

  lemma {:induction false} TotalAligned(es: seq<Entry>)
    ensures TotalLength(es) % 8 == 0
    ensures forall e | e in es :: RecordLength(e) <= TotalLength(es)
  {
    if es != [] {
      TotalAligned(es[1..]);
    }
  }

  lemma {:induction false} RecordsAppend(bs: seq<Byte>, o: nat, es: seq<Entry>, e: Entry, at: nat)
    requires RecordsAt(bs, o, es) && at == o + TotalLength(es) && RecordAt(bs, at, e)
    ensures RecordsAt(bs, o, es + [e])
    decreases |es|
  {
    var es' := es + [e];
    if es == [] {
      assert es'[0] == e && es'[1..] == [];
    } else {
      var o' := o + RecordLength(es[0]);
      RecordsAppend(bs, o', es[1..], e, at);
      assert es'[0] == es[0] && es'[1..] == es[1..] + [e];
    }
  }

  /** Records stay where they are when the buffer is extended behind them. */
  lemma {:induction false} RecordsExtend(bs: seq<Byte>, bs': seq<Byte>, o: nat, es: seq<Entry>)
    requires RecordsAt(bs, o, es) && bs <= bs'
    ensures RecordsAt(bs', o, es)
    decreases |es|
  {
    if es != [] {
      var next := o + RecordLength(es[0]);
      assert bs'[o..next] == bs[o..next];
      RecordsExtend(bs, bs', next, es[1..]);
    }
  }

  // ----- the parser

  function UntilZero(bs: seq<Byte>, o: nat): (r: seq<Byte>)
    requires o <= |bs|
    decreases |bs| - o
  {
    if o == |bs| || bs[o] == 0 then [] else [bs[o]] + UntilZero(bs, o + 1)
  }

  /** Steps through the buffer by `d_reclen`. */
  function Parse(bs: seq<Byte>, o: nat): seq<Entry>
    decreases |bs| - o
  {
    if o + NAME_OFFSET > |bs| then []
    else
      var len := FromBytes(bs[o + 16..o + 18]);
      if len == 0 then []
      else [Entry(FromBytes(bs[o..o + 8]), bs[o + 18], UntilZero(bs, o + NAME_OFFSET))] + Parse(bs, o + len)
  }

  /** What the parser sees of an entry: the inode number as far as it fits its field, and the name
      up to its first zero byte. */
  function Seen(e: Entry): Entry {
    Entry(e.ino % Limit(WIDE), e.kind, UpToZero(e.name))
  }

  function UpToZero(name: seq<Byte>): seq<Byte> {
    if name == [] || name[0] == 0 then [] else [name[0]] + UpToZero(name[1..])
  }

  function SeenAll(es: seq<Entry>): (r: seq<Entry>)
    ensures |r| == |es| && forall i | 0 <= i < |es| :: r[i] == Seen(es[i])
  {
    if es == [] then [] else [Seen(es[0])] + SeenAll(es[1..])
  }

  lemma {:induction false} UpToZeroIs(name: seq<Byte>)
    ensures var r := UpToZero(name);
            r <= name && 0 !in r && (|r| < |name| ==> name[|r|] == 0)
  {
    if name != [] && name[0] != 0 {
      UpToZeroIs(name[1..]);
    }
  }

  lemma SeenShows(n: Node)
    ensures Shows(Seen(EntryOf(n)), n)
  {
    var e := EntryOf(n);
    UpToZeroIs(e.name);
    assert e.ino % Limit(WIDE) == n.ino % 0x1_0000_0000_0000_0000 by { WideLimit(); }
    var r := UpToZero(e.name);
    assert forall i | 0 <= i < |r| :: r[i] == e.name[i] == n.name[i] as nat && r[i] in r;
    assert |r| < |n.name| ==> e.name[|r|] == n.name[|r|] as nat;
  }

  lemma WideLimit()
    ensures Limit(WIDE) == 0x1_0000_0000_0000_0000
  {
    assert Limit(4) == 0x1_0000_0000;
  }

  lemma {:induction false} UpToZeroIff(name: seq<Byte>)
    ensures UpToZero(name) == name <==> 0 !in name
  {
    if name != [] && name[0] != 0 {
      UpToZeroIff(name[1..]);
      assert [name[0]] + name[1..] == name;
    }
  }

  /** The inode numbers fit their field and the names contain no zero byte. */
  ghost predicate Plain(es: seq<Entry>) {
    forall e | e in es :: e.ino < Limit(WIDE) && 0 !in e.name
  }

  lemma SeenIffPlain(es: seq<Entry>)
    ensures SeenAll(es) == es <==> Plain(es)
  {
    forall e | e in es
      ensures Seen(e) == e <==> e.ino < Limit(WIDE) && 0 !in e.name
    {
      UpToZeroIff(e.name);
      ModSmall(e.ino, Limit(WIDE));
    }
    if SeenAll(es) == es {
      forall e | e in es
        ensures Seen(e) == e
      {
        var i :| 0 <= i < |es| && es[i] == e;
      }
    }
    if Plain(es) {
      assert forall i | 0 <= i < |es| :: es[i] in es;
    }
  }

  lemma ModSmall(v: nat, d: nat)
    requires d > 0
    ensures v % d == v <==> v < d
  {
  }

  lemma {:induction false} UntilZeroFinds(bs: seq<Byte>, o: nat, name: seq<Byte>)
    requires o + |name| < |bs| && bs[o..o + |name|] == name && bs[o + |name|] == 0
    ensures UntilZero(bs, o) == UpToZero(name)
    decreases |name|
  {
    if name != [] {
      assert bs[o] == name[0];
      assert bs[o + 1..o + |name|] == bs[o..o + |name|][1..] == name[1..];
      UntilZeroFinds(bs, o + 1, name[1..]);
    }
  }

  lemma SubSlice(bs: seq<Byte>, o: nat, end: nat, a: nat, b: nat)
    requires o <= end <= |bs| && a <= b <= end - o
    ensures bs[o..end][a..b] == bs[o + a..o + b]
  {
    var s := bs[o..end];
    assert forall i | 0 <= i < b - a :: s[a..b][i] == s[a + i] == bs[o + (a + i)] == bs[o + a..o + b][i];
  }

  /** The fields of a record, where the parser looks for them. */
  lemma ImageFields(e: Entry, next: nat)
    ensures var r := Image(e, next);
            && r[0..8] == ToBytes(e.ino, WIDE) && r[16..18] == ToBytes(RecordLength(e), NARROW) && r[18] == e.kind
            && r[NAME_OFFSET..NAME_OFFSET + |e.name|] == e.name && r[NAME_OFFSET + |e.name|] == 0
  {
  }

  lemma RecordFields(bs: seq<Byte>, o: nat, e: Entry)
    requires RecordAt(bs, o, e)
    ensures o + NAME_OFFSET + |e.name| < |bs|
    ensures bs[o..o + 8] == ToBytes(e.ino, WIDE) && bs[o + 16..o + 18] == ToBytes(RecordLength(e), NARROW)
    ensures bs[o + 18] == e.kind && bs[o + NAME_OFFSET..o + NAME_OFFSET + |e.name|] == e.name
    ensures bs[o + NAME_OFFSET + |e.name|] == 0
  {
    var next := o + RecordLength(e);
    var r := Image(e, next);
    ImageFields(e, next);
    var end := o + |r|;
    assert bs[o..end] == r;
    SubSlice(bs, o, end, 0, 8);
    SubSlice(bs, o, end, 16, 18);
    SubSlice(bs, o, end, NAME_OFFSET, NAME_OFFSET + |e.name|);
    assert bs[o + 18] == r[18] && bs[o + NAME_OFFSET + |e.name|] == r[NAME_OFFSET + |e.name|];
  }

  lemma FieldValues(bs: seq<Byte>, o: nat, e: Entry)
    requires RecordAt(bs, o, e) && RecordLength(e) < Limit(NARROW)
    ensures o + NAME_OFFSET < |bs|
    ensures FromBytes(bs[o..o + 8]) == e.ino % Limit(WIDE) && FromBytes(bs[o + 16..o + 18]) == RecordLength(e)
    ensures bs[o + 18] == e.kind && UntilZero(bs, o + NAME_OFFSET) == UpToZero(e.name)
  {
    RecordFields(bs, o, e);
    BytesRoundTrip(e.ino, WIDE);
    assert FromBytes(ToBytes(RecordLength(e), NARROW)) == RecordLength(e) by {
      BytesRoundTrip(RecordLength(e), NARROW);
      ModSmall(RecordLength(e), Limit(NARROW));
    }
    UntilZeroFinds(bs, o + NAME_OFFSET, e.name);
  }

  lemma ParseOne(bs: seq<Byte>, o: nat, e: Entry)
    requires RecordAt(bs, o, e) && RecordLength(e) < Limit(NARROW)
    ensures Parse(bs, o) == [Seen(e)] + Parse(bs, o + RecordLength(e))
  {
    FieldValues(bs, o, e);
  }

  /** Parsing undoes printing. */
  lemma {:induction false} ParseRecords(bs: seq<Byte>, o: nat, es: seq<Entry>)
    requires RecordsAt(bs, o, es) && |bs| == o + TotalLength(es)
    requires forall e | e in es :: RecordLength(e) < Limit(NARROW)
    ensures Parse(bs, o) == SeenAll(es)
    decreases |es|
  {
    if es != [] {
      ParseOne(bs, o, es[0]);
      ParseRecords(bs, o + RecordLength(es[0]), es[1..]);
    }
  }

  /** Another parser steps through the buffer by `d_off`, the offset of the next record. */
  function ParseByOffset(bs: seq<Byte>, o: nat): seq<Entry>
    decreases |bs| - o
  {
    if o + NAME_OFFSET > |bs| then []
    else
      var next := FromBytes(bs[o + 8..o + 16]);
      if next <= o then []
      else [Entry(FromBytes(bs[o..o + 8]), bs[o + 18], UntilZero(bs, o + NAME_OFFSET))] + ParseByOffset(bs, next)
  }

  lemma ImageOffset(e: Entry, next: nat)
    ensures Image(e, next)[8..16] == ToBytes(next, WIDE)
  {
    SecondField(ToBytes(e.ino, WIDE), ToBytes(next, WIDE), ToBytes(RecordLength(e), NARROW) + [e.kind], e.name + [0]);
  }

  lemma SecondField(a: seq<Byte>, b: seq<Byte>, c: seq<Byte>, d: seq<Byte>)
    ensures (a + b + c + d)[|a|..|a| + |b|] == b
  {
    assert a + b + c + d == a + (b + (c + d));
  }

  lemma SeenStep(es: seq<Entry>)
    requires es != []
    ensures SeenAll(es) == [Seen(es[0])] + SeenAll(es[1..])
  {
  }

  lemma OffsetField(bs: seq<Byte>, o: nat, e: Entry)
    requires RecordAt(bs, o, e) && |bs| < 0x1_0000_0000_0000_0000
    ensures o + NAME_OFFSET <= |bs| && FromBytes(bs[o + 8..o + 16]) == o + RecordLength(e)
  {
    var next := o + RecordLength(e);
    var end := o + |Image(e, next)|;
    assert bs[o..end] == Image(e, next);
    assert bs[o + 8..o + 16] == ToBytes(next, WIDE) by {
      SubSlice(bs, o, end, 8, 16);
      ImageOffset(e, next);
    }
    assert FromBytes(ToBytes(next, WIDE)) == next by { WideRoundTrip(next); }
  }

  lemma WideRoundTrip(v: nat)
    requires v < 0x1_0000_0000_0000_0000
    ensures FromBytes(ToBytes(v, WIDE)) == v
  {
    BytesRoundTrip(v, WIDE);
    WideLimit();
  }

  lemma OtherFields(bs: seq<Byte>, o: nat, e: Entry)
    requires RecordAt(bs, o, e)
    ensures o + NAME_OFFSET <= |bs|
    ensures Entry(FromBytes(bs[o..o + 8]), bs[o + 18], UntilZero(bs, o + NAME_OFFSET)) == Seen(e)
  {
    RecordFields(bs, o, e);
    BytesRoundTrip(e.ino, WIDE);
    UntilZeroFinds(bs, o + NAME_OFFSET, e.name);
  }

  lemma ParseOneOffset(bs: seq<Byte>, o: nat, e: Entry)
    requires RecordAt(bs, o, e) && |bs| < 0x1_0000_0000_0000_0000
    ensures ParseByOffset(bs, o) == [Seen(e)] + ParseByOffset(bs, o + RecordLength(e))
  {
    OffsetField(bs, o, e);
    OtherFields(bs, o, e);
  }

  /** It sees the same entries, of records of any length. */
  lemma {:induction false} ParseOffsets(bs: seq<Byte>, o: nat, es: seq<Entry>)
    requires RecordsAt(bs, o, es) && |bs| == o + TotalLength(es) < 0x1_0000_0000_0000_0000
    ensures ParseByOffset(bs, o) == SeenAll(es)
    decreases |es|
  {
    if es != [] {
      ParseOneOffset(bs, o, es[0]);
      ParseOffsets(bs, o + RecordLength(es[0]), es[1..]);
      assert SeenAll(es) == [Seen(es[0])] + SeenAll(es[1..]) by { SeenStep(es); }
    }
  }

  // ----- pieces

  /** How many entries from `start` on fit in `count` bytes. */
  function Fitting(es: seq<Entry>, start: nat, count: nat): (n: nat)
    requires start <= |es|
    ensures start + n <= |es|
    decreases |es| - start
  {
    if start == |es| || RecordLength(es[start]) > count then 0
    else 1 + Fitting(es, start + 1, count - RecordLength(es[start]))
  }

  /** As many as fit: they fit together, and with one more they would not. */
  lemma {:induction false} FittingIs(es: seq<Entry>, start: nat, count: nat, k: nat)
    requires start + k <= |es| && TotalLength(es[start..start + k]) <= count
    requires start + k < |es| ==> TotalLength(es[start..start + k]) + RecordLength(es[start + k]) > count
    ensures Fitting(es, start, count) == k
    decreases k
  {
    if k == 0 {
      assert es[start..start + k] == [];
    } else {
      assert es[start..start + k][1..] == es[start + 1..start + k];
      FittingIs(es, start + 1, count - RecordLength(es[start]), k - 1);
    }
  }

  /** Where repeated calls with the same count, the first one from `start`, come to a halt. */
  function Reached(es: seq<Entry>, start: nat, count: nat): (r: nat)
    requires start <= |es|
    ensures start <= r <= |es|
    decreases |es| - start
  {
    var n := Fitting(es, start, count);
    if n == 0 then start else Reached(es, start + n, count)
  }

  lemma {:induction false} FittingFits(es: seq<Entry>, start: nat, count: nat)
    requires start <= |es|
    ensures forall i | start <= i < start + Fitting(es, start, count) :: RecordLength(es[i]) <= count
    decreases |es| - start
  {
    if start < |es| && RecordLength(es[start]) <= count {
      FittingFits(es, start + 1, count - RecordLength(es[start]));
    }
  }

  /** They halt at the first record that is larger than the count, as if the directory ended
      there; so they reach the end exactly when every record fits. */
  lemma {:induction false} ReachedFirstOversize(es: seq<Entry>, start: nat, count: nat)
    requires start <= |es|
    ensures var r := Reached(es, start, count);
            && (forall i | start <= i < r :: RecordLength(es[i]) <= count)
            && (r < |es| ==> RecordLength(es[r]) > count)
    decreases |es| - start
  {
    var n := Fitting(es, start, count);
    if n > 0 {
      FittingFits(es, start, count);
      ReachedFirstOversize(es, start + n, count);
    }
  }

  /** The buffer, `bs0` at first, now begins with the records of the `k` entries from `start` on,
      `n` bytes in all, and is unchanged behind them. */
  ghost predicate Progress(bs0: seq<Byte>, bs: seq<Byte>, es: seq<Entry>, start: nat, k: nat, n: nat) {
    && start + k <= |es| && n <= |bs| == |bs0|
    && n == TotalLength(es[start..start + k])
    && RecordsAt(bs[..n], 0, es[start..start + k])
    && bs[n..] == bs0[n..]
  }

  /** `bs` with `data` written over it from `at` on. */
  ghost function Overlay(bs: seq<Byte>, at: nat, data: seq<Byte>): (r: seq<Byte>)
    requires at + |data| <= |bs|
    ensures |r| == |bs|
  {
    bs[..at] + data + bs[at + |data|..]
  }

  /** Storing piece behind piece is storing them together. */
  lemma OverlayAppend(bs: seq<Byte>, at: nat, a: seq<Byte>, b: seq<Byte>)
    requires at + |a| + |b| <= |bs|
    ensures Overlay(Overlay(bs, at, a), at + |a|, b) == Overlay(bs, at, a + b)
  {
  }

  lemma OverlaySlices(bs: seq<Byte>, at: nat, data: seq<Byte>, end: nat)
    requires at + |data| <= end <= |bs|
    ensures var r := Overlay(bs, at, data);
            r[..at] == bs[..at] && data <= r[..end][at..end] && r[end..] == bs[end..]
  {
  }

  lemma ProgressStep(bs0: seq<Byte>, bs: seq<Byte>, es: seq<Entry>, start: nat, k: nat, o: nat, next: nat)
    requires Progress(bs0, bs, es, start, k, o) && start + k < |es|
    requires next == o + RecordLength(es[start + k]) <= |bs|
    ensures Progress(bs0, Overlay(bs, o, Image(es[start + k], next)), es, start, k + 1, next)
  {
    var e, done := es[start + k], es[start..start + k];
    var bs' := Overlay(bs, o, Image(e, next));
    OverlaySlices(bs, o, Image(e, next), next);
    assert es[start..start + k + 1] == done + [e];
    TotalAppend(done, e);
    assert RecordsAt(bs'[..next], 0, done + [e]) by {
      assert bs'[..o] <= bs'[..next];
      RecordsExtend(bs'[..o], bs'[..next], 0, done);
      RecordsAppend(bs'[..next], 0, done, e, o);
    }
    assert bs[next..] == bs[o..][RecordLength(e)..] == bs0[next..];
  }

  /** The printed records fit the field for their length; they surely do when the count does. */
  ghost predicate Measured(es: seq<Entry>, count: nat) {
    count < Limit(NARROW) || forall e | e in es :: RecordLength(e) < Limit(NARROW)
  }

  /** One call from `start` on has moved the offset to `offset`: as many entries as fit are in the first
      `n` bytes, where both parsers see them. */
  ghost predicate Delivered(es: seq<Entry>, start: nat, offset: nat, bs: seq<Byte>, n: nat, count: nat) {
    && start <= offset <= |es| && offset == start + Fitting(es, start, count)
    && n <= |bs| && n == TotalLength(es[start..offset])
    && (Measured(es, count) ==> Parse(bs[..n], 0) == SeenAll(es[start..offset]))
    && (n < 0x1_0000_0000_0000_0000 ==> ParseByOffset(bs[..n], 0) == SeenAll(es[start..offset]))
  }

  lemma ProgressDelivers(bs0: seq<Byte>, bs: seq<Byte>, es: seq<Entry>, start: nat, k: nat, n: nat, count: nat)
    requires Progress(bs0, bs, es, start, k, n) && n <= count
    requires start + k < |es| ==> n + RecordLength(es[start + k]) > count
    ensures Delivered(es, start, start + k, bs, n, count) && n % 8 == 0
  {
    var done := es[start..start + k];
    FittingIs(es, start, count, k);
    TotalAligned(done);
    if n < 0x1_0000_0000_0000_0000 {
      ParseOffsets(bs[..n], 0, done);
    }
    if Measured(es, count) {
      forall e | e in done
        ensures RecordLength(e) < Limit(NARROW)
      {
        assert e in es;
      }
      ParseRecords(bs[..n], 0, done);
    }
  }

  datatype Outcome = Read(n: nat) | NoSuchFileOrDirectory | NotADirectory

  /** The directory context of an open file. */
  class DirContext {
    var offset: nat

    constructor ()
      ensures offset == 0
    {
      offset := 0;
    }

    /** One call, given what the lookup of the directory's path found: prints the entries from
        the offset on that fit, and moves the offset behind them. An offset past the end prints
        nothing. The buffer must hold `count` bytes. */
    method GetDents(nodes: Graph, found: Option<nat>, buf: array<Byte>, count: nat) returns (r: Outcome)
      requires Closed(nodes) && (found.Some? ==> found.value < |nodes|)
      requires count <= buf.Length
      modifies this, buf
      ensures r == NoSuchFileOrDirectory <==> found == None
      ensures r == NotADirectory <==> found.Some? && nodes[found.value].kind != Directory
      ensures r.Read? <==> found.Some? && nodes[found.value].kind == Directory
      ensures !r.Read? ==> offset == old(offset) && buf[..] == old(buf[..])
      ensures r.Read? ==> r.n <= count && r.n % 8 == 0 && buf[..][r.n..] == old(buf[..])[r.n..]
      ensures r.Read? && old(offset) > |Listing(nodes, found.value)| ==> r.n == 0 && offset == old(offset)
      ensures r.Read? && old(offset) <= |Listing(nodes, found.value)| ==>
                Delivered(Listing(nodes, found.value), old(offset), offset, buf[..], r.n, count)
    {
      if found == None {
        return NoSuchFileOrDirectory;
      }
      if nodes[found.value].kind != Directory {
        return NotADirectory;
      }
      var es := Listing(nodes, found.value);
      var start := offset;
      if start > |es| {
        return Read(0);
      }
      var n, printed := PrintEntries(es, start, buf, count);
      offset := start + printed;
      ProgressDelivers(old(buf[..]), buf[..], es, start, printed, n, count);
      r := Read(n);
    }

    /** The loop of the call. */
    method PrintEntries(es: seq<Entry>, start: nat, buf: array<Byte>, count: nat) returns (n: nat, printed: nat)
      requires start <= |es| && count <= buf.Length
      modifies buf
      ensures n <= count && Progress(old(buf[..]), buf[..], es, start, printed, n)
      ensures start + printed < |es| ==> n + RecordLength(es[start + printed]) > count
    {
      n, printed := 0, 0;
      assert es[start..start] == [];
      while start + printed < |es|
        invariant n <= count && start + printed <= |es|
        invariant Progress(old(buf[..]), buf[..], es, start, printed, n)
      {
        var e := es[start + printed];
        var next := n + RecordLength(e);
        if next > count {
          break;
        }
        ProgressStep(old(buf[..]), buf[..], es, start, printed, n, next);
        StoreRecord(e, buf, n, next);
        n, printed := next, printed + 1;
      }
    }

    /** The stores of one record: field behind field, and nothing else. */
    method StoreRecord(e: Entry, buf: array<Byte>, o: nat, next: nat)
      requires next == o + RecordLength(e) <= buf.Length
      modifies buf
      ensures buf[..] == Overlay(old(buf[..]), o, Image(e, next))
    {
      ghost var bs := buf[..];
      var ino, off, rec := ToBytes(e.ino, WIDE), ToBytes(next, WIDE), ToBytes(RecordLength(e), NARROW);
      Store(buf, o, ino);
      Store(buf, o + 8, off);
      Store(buf, o + 16, rec + [e.kind]);
      Store(buf, o + NAME_OFFSET, e.name + [0]);
      OverlayAppend(bs, o, ino, off);
      OverlayAppend(bs, o, ino + off, rec + [e.kind]);
      OverlayAppend(bs, o, ino + off + (rec + [e.kind]), e.name + [0]);
    }

    /** `copy_from_slice`. */
    method Store(buf: array<Byte>, at: nat, data: seq<Byte>)
      requires at + |data| <= buf.Length
      modifies buf
      ensures buf[..] == Overlay(old(buf[..]), at, data)
    {
      forall i | 0 <= i < |data| {
        buf[at + i] := data[i];
      }
      assert forall i | 0 <= i < buf.Length ::
          buf[..][i] == if at <= i < at + |data| then data[i - at] else old(buf[..])[i];
    }
  }

  /** What user space does with an unchanged directory: call until nothing more comes, and parse.
      Finitely many calls list every child before the first record larger than the count, each once
      and in order; the whole listing comes back exactly when every record fits the count and
      every entry fits its fields. */
  method ReadDirectory(nodes: Graph, dir: nat, buf: array<Byte>, count: nat) returns (out: seq<Entry>)
    requires Closed(nodes) && dir < |nodes| && nodes[dir].kind == Directory && count <= buf.Length
    modifies buf
    ensures var es := Listing(nodes, dir);
            Measured(es, count) ==>
              && out == SeenAll(es[..Reached(es, 0, count)])
              && (out == es <==> Plain(es) && forall i | 0 <= i < |es| :: RecordLength(es[i]) <= count)
    ensures var es, cs := Listing(nodes, dir), nodes[dir].children;
            Measured(es, count) ==>
              && |out| <= |cs| == |es|
              && (forall i | 0 <= i < |out| :: Shows(out[i], nodes[cs[i]]) && RecordLength(es[i]) <= count)
              && (|out| < |cs| ==> RecordLength(es[|out|]) > count)
  {
    ghost var es := Listing(nodes, dir);
    var ctx := new DirContext();
    out := [];
    while true
      invariant ctx.offset <= |es| && fresh(ctx) && ReadSoFar(es, ctx.offset, count, out, Reached(es, 0, count))
      decreases |es| - ctx.offset
    {
      ghost var start := ctx.offset;
      var r := ctx.GetDents(nodes, Some(dir), buf, count);
      var piece := Parse(buf[..][..r.n], 0);
      ReadStep(es, start, ctx.offset, r.n, count, out, piece, Reached(es, 0, count));
      if r.n == 0 {
        break;
      }
      out := out + piece;
    }
    AllReadIff(es, count);
    ListedShown(nodes, dir, count);
  }

  /** The listing up to where the calls halt shows the children in order. */
  lemma ListedShown(nodes: Graph, dir: nat, count: nat)
    requires Closed(nodes) && dir < |nodes|
    ensures var es, cs := Listing(nodes, dir), nodes[dir].children; var r := Reached(es, 0, count);
            && |cs| == |es|
            && (forall i | 0 <= i < r :: Shows(SeenAll(es[..r])[i], nodes[cs[i]]) && RecordLength(es[i]) <= count)
            && (r < |cs| ==> RecordLength(es[r]) > count)
  {
    var es, cs := Listing(nodes, dir), nodes[dir].children;
    var r := Reached(es, 0, count);
    ReachedFirstOversize(es, 0, count);
    forall i | 0 <= i < r
      ensures Shows(SeenAll(es[..r])[i], nodes[cs[i]])
    {
      SeenShows(nodes[cs[i]]);
      assert SeenAll(es[..r])[i] == Seen(es[i]);
    }
  }

  /** The parsed entries up to the offset, from which the rest of the calls go on to `goal`. */
  ghost predicate ReadSoFar(es: seq<Entry>, offset: nat, count: nat, out: seq<Entry>, goal: nat) {
    && offset <= |es| && Reached(es, offset, count) == goal
    && (Measured(es, count) ==> out == SeenAll(es[..offset]))
  }

  lemma ReadStep(es: seq<Entry>, start: nat, offset: nat, n: nat, count: nat,
                 out: seq<Entry>, piece: seq<Entry>, goal: nat)
    requires ReadSoFar(es, start, count, out, goal) && offset == start + Fitting(es, start, count)
    requires n == TotalLength(es[start..offset])
    requires Measured(es, count) ==> piece == SeenAll(es[start..offset])
    ensures n == 0 ==> start == offset == goal
    ensures n > 0 ==> start < offset && ReadSoFar(es, offset, count, out + piece, goal)
  {
    assert n == 0 <==> start == offset by { NothingIffNone(es, start, offset); }
    assert Measured(es, count) ==> out + piece == SeenAll(es[..offset]) by { SeenAppend(es, start, offset); }
  }

  lemma NothingIffNone(es: seq<Entry>, a: nat, b: nat)
    requires a <= b <= |es|
    ensures TotalLength(es[a..b]) == 0 <==> a == b
  {
    TotalAligned(es[a..b]);
    assert a < b ==> es[a] in es[a..b];
  }

  lemma SeenAppend(es: seq<Entry>, a: nat, b: nat)
    requires a <= b <= |es|
    ensures SeenAll(es[..a]) + SeenAll(es[a..b]) == SeenAll(es[..b])
  {
  }

  lemma AllReadIff(es: seq<Entry>, count: nat)
    ensures SeenAll(es[..Reached(es, 0, count)]) == es
       <==> Plain(es) && forall i | 0 <= i < |es| :: RecordLength(es[i]) <= count
  {
    var r := Reached(es, 0, count);
    ReachedFirstOversize(es, 0, count);
    SeenIffPlain(es);
    if r == |es| {
      assert es[..r] == es;
    } else {
      assert |SeenAll(es[..r])| == r;
    }
  }
}
