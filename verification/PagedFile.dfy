/** The page cache of a file (kernel/src/fs/buffer.rs): a vector of pages and a size. A fresh
    page has unspecified contents, so only bytes that were written are promised back. The
    vector never holds an empty slot, so slots are modelled as pages.
  */
module PagedFile {
  import opened Basics

  type Byte = nat
  type Page = seq<Byte>

  ghost predicate WellSized(pages: seq<Page>) {
    forall i | 0 <= i < |pages| :: |pages[i]| == PAGE_SIZE
  }

  /** Number of bytes the pages can hold. */
  function Capacity(pages: seq<Page>): nat { |pages| * PAGE_SIZE }

  /** The byte at offset `x` of the file. */
  ghost function ByteAt(pages: seq<Page>, x: nat): Byte
    requires WellSized(pages) && x < Capacity(pages)
  {
    pages[x / PAGE_SIZE][x % PAGE_SIZE]
  }

  /** How many bytes `read` delivers: no more than asked for, than the file has, and than
      there are pages for. */
  function ReadLength(size: nat, capacity: nat, offset: nat, n: nat): nat {
    if offset >= size || offset >= capacity then 0 else Min(n, Min(size, capacity) - offset)
  }

  /** Every read gets all bytes up to the end of the file exactly when the pages reach that far. */
  lemma FullReadsIff(size: nat, capacity: nat)
    ensures (forall offset: nat, n: nat ::
               ReadLength(size, capacity, offset, n) == if offset >= size then 0 else Min(n, size - offset))
            <==> size <= capacity
  {
    if size > capacity {
      assert ReadLength(size, capacity, capacity, 1) == 0;
    }
  }

  /** A page with `data` stored from `at` on. */
  function StoreIn(page: Page, at: nat, data: seq<Byte>): (r: Page)
    requires |page| == PAGE_SIZE && at + |data| <= PAGE_SIZE
    ensures |r| == PAGE_SIZE
    ensures forall i | 0 <= i < PAGE_SIZE :: r[i] == if at <= i < at + |data| then data[i - at] else page[i]
  {
    page[..at] + data + page[at + |data|..]
  }

  /** Storing inside one page changes those file offsets and no others. */
  lemma StoreBytes(pages: seq<Page>, offset: nat, data: seq<Byte>)
    requires WellSized(pages) && offset < Capacity(pages) && offset % PAGE_SIZE + |data| <= PAGE_SIZE
    ensures offset + |data| <= Capacity(pages)
    ensures var i := offset / PAGE_SIZE;
            && i < |pages|
            && var pages' := pages[i := StoreIn(pages[i], offset % PAGE_SIZE, data)];
               && WellSized(pages')
               && forall x: nat | x < Capacity(pages) ::
                    ByteAt(pages', x) == if offset <= x < offset + |data| then data[x - offset] else ByteAt(pages, x)
  {
    var i := offset / PAGE_SIZE;
    var pages' := pages[i := StoreIn(pages[i], offset % PAGE_SIZE, data)];
    forall x: nat | x < Capacity(pages)
      ensures ByteAt(pages', x) == if offset <= x < offset + |data| then data[x - offset] else ByteAt(pages, x)
    {
      if x / PAGE_SIZE == i {
        assert x - offset == x % PAGE_SIZE - offset % PAGE_SIZE;
      }
    }
  }

  /** `base` overwritten by `data` from `offset` on, byte after byte. */
  ghost function Written(base: map<nat, Byte>, offset: nat, data: seq<Byte>): map<nat, Byte> {
    if data == [] then base
    else
      var last := |data| - 1;
      Written(base, offset, data[..last])[offset + last := data[last]]
  }

  /** The bytes of `data` are there, and the others are as before. */
  lemma {:induction false} WrittenAt(base: map<nat, Byte>, offset: nat, data: seq<Byte>, x: nat)
    ensures x in Written(base, offset, data) <==> x in base || offset <= x < offset + |data|
    ensures offset <= x < offset + |data| ==> Written(base, offset, data)[x] == data[x - offset]
    ensures x in base && !(offset <= x < offset + |data|) ==> Written(base, offset, data)[x] == base[x]
    decreases |data|
  {
    if data != [] {
      WrittenAt(base, offset, data[..|data| - 1], x);
    }
  }

  /** Storing two consecutive pieces is storing them together. */
  lemma {:induction false} WrittenAppend(base: map<nat, Byte>, offset: nat, a: seq<Byte>, b: seq<Byte>)
    ensures Written(Written(base, offset, a), offset + |a|, b) == Written(base, offset, a + b)
    decreases |b|
  {
    if b == [] {
      assert a + b == a;
    } else {
      assert (a + b)[..|a + b| - 1] == a + b[..|b| - 1];
      WrittenAppend(base, offset, a, b[..|b| - 1]);
    }
  }

  /** The pages hold the bytes of `content`, all of them inside the file. */
  ghost predicate Reflects(pages: seq<Page>, size: nat, content: map<nat, Byte>) {
    && WellSized(pages)
    && (forall x | x in content :: x < size && x < Capacity(pages) && ByteAt(pages, x) == content[x])
  }

  lemma GrowReflects(pages: seq<Page>, pages': seq<Page>, size: nat, content: map<nat, Byte>)
    requires Reflects(pages, size, content) && pages <= pages' && WellSized(pages')
    ensures Reflects(pages', size, content)
  {
  }

  lemma StoreReflects(pages: seq<Page>, size: nat, content: map<nat, Byte>, offset: nat, data: seq<Byte>)
    requires Reflects(pages, size, content) && offset < Capacity(pages) && offset % PAGE_SIZE + |data| <= PAGE_SIZE
    ensures var i := offset / PAGE_SIZE;
            && i < |pages|
            && Reflects(pages[i := StoreIn(pages[i], offset % PAGE_SIZE, data)], Max(size, offset + |data|),
                        Written(content, offset, data))
  {
    var i := offset / PAGE_SIZE;
    var pages', content' := pages[i := StoreIn(pages[i], offset % PAGE_SIZE, data)], Written(content, offset, data);
    StoreBytes(pages, offset, data);
    forall x | x in content'
      ensures x < Max(size, offset + |data|) && x < Capacity(pages') && ByteAt(pages', x) == content'[x]
    {
      WrittenAt(content, offset, data, x);
      if offset <= x < offset + |data| {
        assert ByteAt(pages', x) == data[x - offset];
      } else {
        assert ByteAt(pages', x) == ByteAt(pages, x);
      }
    }
  }

  /** The file begins with the first `n` bytes of `data`. */
  ghost predicate Loaded(pages: seq<Page>, data: seq<Byte>, n: nat) {
    && WellSized(pages) && n <= |data| && n <= Capacity(pages)
    && (forall x: nat | x < n :: ByteAt(pages, x) == data[x])
  }

  lemma LoadStep(before: seq<Page>, pages: seq<Page>, data: seq<Byte>, n: nat, m: nat)
    requires Loaded(before, data, n) && before <= pages && WellSized(pages)
    requires n % PAGE_SIZE == 0 && n < Capacity(pages) && n + m <= |data| && m <= PAGE_SIZE
    ensures n / PAGE_SIZE < |pages|
    ensures Loaded(pages[n / PAGE_SIZE := StoreIn(pages[n / PAGE_SIZE], n % PAGE_SIZE, data[n..n + m])], data, n + m)
  {
    StoreBytes(pages, n, data[n..n + m]);
    assert forall x: nat | x < n :: ByteAt(pages, x) == ByteAt(before, x);
  }

  class AddressSpace {
    var pages: seq<Page>
    var size: nat
    /** The bytes written since they were last cut off. */
    ghost var content: map<nat, Byte>

    ghost predicate Valid()
      reads this
    {
      Reflects(pages, size, content)
    }

    /** There is a page for every byte of the file. */
    ghost predicate Backed()
      reads this
    {
      size <= Capacity(pages)
    }

    constructor ()
      ensures Valid() && Backed() && size == 0 && content == map[]
    {
      pages, size, content := [], 0, map[];
    }

    /** `Page::new`: the contents are unspecified. */
    method FreshPage() returns (p: Page)
      ensures |p| == PAGE_SIZE
    {
      p := seq(PAGE_SIZE, _ => 0);
    }

    /** Appends pages until page `index` exists. */
    method Grow(index: nat)
      requires WellSized(pages)
      modifies this`pages
      ensures WellSized(pages) && index < |pages| && old(pages) <= pages
      ensures |pages| == Max(old(|pages|), index + 1)
    {
      while index >= |pages|
        invariant WellSized(pages) && old(pages) <= pages && |pages| <= Max(old(|pages|), index + 1)
        decreases index + 1 - |pages|
      {
        var p := FreshPage();
        pages := pages + [p];
      }
    }

    /** `read` into `buf`. */
    method Read(offset: nat, buf: array<Byte>) returns (n: nat)
      requires Valid()
      modifies buf
      ensures n == ReadLength(size, Capacity(pages), offset, buf.Length) <= buf.Length
      ensures n < buf.Length ==> offset + n >= size || offset + n >= Capacity(pages)
      ensures forall i | 0 <= i < n :: offset + i < Capacity(pages) && buf[i] == ByteAt(pages, offset + i)
      ensures forall i | 0 <= i < n && offset + i in content :: buf[i] == content[offset + i]
      ensures forall i | n <= i < buf.Length :: buf[i] == old(buf[i])
    {
      n := 0;
      if offset >= size {
        return;
      }
      var toRead := Min(buf.Length, size - offset);
      while n < toRead
        invariant n <= toRead && (n > 0 ==> offset + n <= Capacity(pages))
        invariant forall i | 0 <= i < n :: buf[i] == ByteAt(pages, offset + i)
        invariant forall i | n <= i < buf.Length :: buf[i] == old(buf[i])
      {
        var index, at := (offset + n) / PAGE_SIZE, (offset + n) % PAGE_SIZE;
        if index >= |pages| {
          break;
        }
        var part := Min(toRead - n, PAGE_SIZE - at);
        forall i | 0 <= i < part {
          buf[n + i] := pages[index][at + i];
        }
        n := n + part;
      }
    }

    /** `write`: afterwards the file holds `data` at `offset`, and every other written byte as before. */
    method Write(offset: nat, data: seq<Byte>) returns (n: nat)
      requires Valid()
      modifies this
      ensures Valid() && n == |data|
      ensures content == Written(old(content), offset, data)
      ensures size == if data == [] then old(size) else Max(old(size), offset + |data|)
      ensures old(Backed()) ==> Backed()
      ensures old(Capacity(pages)) <= Capacity(pages) < Max(old(Capacity(pages)) + 1, offset + |data| + PAGE_SIZE)
    {
      n := 0;
      while n < |data|
        invariant n <= |data| && Valid()
        invariant content == Written(old(content), offset, data[..n])
        invariant size == if n == 0 then old(size) else Max(old(size), offset + n)
        invariant old(Backed()) ==> Backed()
        invariant old(Capacity(pages)) <= Capacity(pages) < Max(old(Capacity(pages)) + 1, offset + n + PAGE_SIZE)
      {
        var m := WriteChunk(offset + n, data[n..]);
        WrittenAppend(old(content), offset, data[..n], data[n..][..m]);
        assert data[..n] + data[n..][..m] == data[..n + m];
        n := n + m;
      }
      assert data[..|data|] == data;
    }

    /** One round of the loop of `write`: as much of `data` as fits in the page of `offset`. */
    method WriteChunk(offset: nat, data: seq<Byte>) returns (m: nat)
      requires Valid() && data != []
      modifies this
      ensures Valid() && 1 <= m <= |data|
      ensures content == Written(old(content), offset, data[..m])
      ensures size == Max(old(size), offset + m)
      ensures old(Backed()) ==> Backed()
      ensures old(Capacity(pages)) <= Capacity(pages) < Max(old(Capacity(pages)) + 1, offset + m + PAGE_SIZE)
    {
      var index, at := offset / PAGE_SIZE, offset % PAGE_SIZE;
      Grow(index);
      GrowReflects(old(pages), pages, size, content);
      m := Min(|data|, PAGE_SIZE - at);
      StoreReflects(pages, size, content, offset, data[..m]);
      pages := pages[index := StoreIn(pages[index], at, data[..m])];
      size := Max(size, offset + m);
      content := Written(content, offset, data[..m]);
    }

    /** `load_from_bytes`: afterwards the file is `data`. */
    method LoadFromBytes(data: seq<Byte>)
      requires Valid()
      modifies this
      ensures Valid() && Backed()
      ensures size == |data| && content == Written(map[], 0, data)
    {
      var offset := 0;
      content := map[];
      while offset < |data|
        invariant offset <= |data| && Loaded(pages, data, offset)
        invariant offset < |data| ==> offset % PAGE_SIZE == 0
      {
        var m := Min(|data| - offset, PAGE_SIZE);
        ghost var before := pages;
        var index := offset / PAGE_SIZE;
        Grow(index);
        LoadStep(before, pages, data, offset, m);
        pages := pages[index := StoreIn(pages[index], offset % PAGE_SIZE, data[offset..offset + m])];
        offset := offset + m;
      }
      size := |data|;
      content := Written(map[], 0, data);
      forall x | x in content
        ensures x < size && ByteAt(pages, x) == content[x]
      {
        WrittenAt(map[], 0, data, x);
      }
    }

    /** `truncate`: bytes from the new size on are cut off. The file stays backed exactly when
        there already was a page for every byte of the new size. */
    method Truncate(newSize: nat)
      requires Valid()
      modifies this
      ensures Valid()
      ensures size == newSize && content == map x | x in old(content) && x < newSize :: old(content)[x]
      ensures Backed() <==> newSize <= old(Capacity(pages))
      ensures pages <= old(pages) && Capacity(pages) < newSize + PAGE_SIZE
      ensures pages == old(pages) || newSize <= Capacity(pages)
    {
      size := newSize;
      var count := (newSize + PAGE_SIZE - 1) / PAGE_SIZE;
      if |pages| > count {
        pages := pages[..count];
      }
      content := map x | x in content && x < newSize :: content[x];
    }
  }

  /** A read of what was just written gets it back, whatever lies between the bytes and the pages. */
  method ReadBack(f: AddressSpace, offset: nat, data: seq<Byte>, buf: array<Byte>) returns (n: nat)
    requires f.Valid() && buf.Length == |data|
    modifies f, buf
    ensures f.Valid() && n == |data| && buf[..] == data
  {
    var written := f.Write(offset, data);
    LastWritten(f.pages, f.size, f.content, old(f.content), offset, data);
    n := f.Read(offset, buf);
  }

  lemma LastWritten(pages: seq<Page>, size: nat, content: map<nat, Byte>, base: map<nat, Byte>, offset: nat,
                    data: seq<Byte>)
    requires Reflects(pages, size, content) && content == Written(base, offset, data)
    ensures ReadLength(size, Capacity(pages), offset, |data|) == |data|
    ensures forall x | offset <= x < offset + |data| :: x in content && content[x] == data[x - offset]
  {
    forall x | offset <= x < offset + |data|
      ensures x in content && content[x] == data[x - offset]
    {
      WrittenAt(base, offset, data, x);
    }
    if data != [] {
      assert offset + (|data| - 1) in content;
    }
  }
}
