/**
 * `StringBuffer` of strbuffer.cpp: a growable character buffer with a
 * size and a NUL terminator.  The `std::string buffer_` is modelled by its
 * storage block, `capacity + 1` characters (the extra one holds the
 * terminator the library keeps after the capacity), and by its own
 * length `buffer_.size()`, which only `resize` and `ensure_capacity`
 * change: writes through `operator[]` and `memcpy` leave it alone.
 * `size_` is `size`.
 */
module StringBuffers {
  import opened Wrappers

  /** What `remove(index, count)` leaves of `s`: nothing removed past the end, `count` clamped to what remains. */
  function Removed(s: seq<char>, index: nat, count: nat): (r: seq<char>)
    ensures index >= |s| ==> r == s
    ensures index < |s| && count >= |s| - index ==> r == s[..index]
    ensures index < |s| && count < |s| - index ==> |r| == |s| - count && r[..index] == s[..index] && r[index..] == s[index + count..]
  {
    if index >= |s| then s
    else if count >= |s| - index then s[..index]
    else s[..index] + s[index + count..]
  }

  lemma RemovedClamped(s: seq<char>, index: nat, count: nat, c: nat)
    requires index < |s| && c == (if count >= |s| - index then |s| - index else count)
    ensures Removed(s, index, count) == s[..index] + s[index + c..]
  {
    if count >= |s| - index {
      assert s[index + c..] == [];
    }
  }

  /** After the `memmove` of `remove`, the first `size - c` characters are the content without the `c` at `index`. */
  lemma ShiftedLeft(pre: seq<char>, index: nat, c: nat, size: nat)
    requires size < |pre| && index + c <= size
    ensures Moved(pre, index, index + c, size - index - c + 1)[..size - c] == pre[..index] + pre[..size][index + c..]
  {
    var post := Moved(pre, index, index + c, size - index - c + 1);
    forall p | 0 <= p < size - c ensures post[p] == (pre[..index] + pre[..size][index + c..])[p] {
      MovedAt(pre, index, index + c, size - index - c + 1, p);
      if p >= index {
        assert (pre[..index] + pre[..size][index + c..])[p] == pre[..size][index + c..][p - index];
      }
    }
  }

  /** What was removed, put back in place, gives the original text. */
  lemma RemovedRestore(s: seq<char>, index: nat, count: nat)
    requires index < |s|
    ensures var c := if count >= |s| - index then |s| - index else count;
      Removed(s, index, count)[..index] + s[index..index + c] + Removed(s, index, count)[index..] == s
  {
    var c := if count >= |s| - index then |s| - index else count;
    var r := Removed(s, index, count);
    assert r[..index] == s[..index];
    assert r[index..] == s[index + c..];
    assert s[..index] + s[index..index + c] + s[index + c..] == s;
  }

  /**
   * What `prepend(data, n)` as written leaves, `c`, of the old content
   * `prior`: `data` at the front, the old characters from `n` on still in
   * place rather than shifted, the character `moved` that stood at the old
   * size (the terminator, unless the storage was just reallocated) now at
   * the old size, and the length grown by `n`.
   */
  predicate PrependedAsWritten(prior: seq<char>, data: seq<char>, moved: char, c: seq<char>)
  {
    |c| == |prior| + |data| && c[..|data|] == data
    && (forall k | |data| <= k < |prior| :: c[k] == prior[k])
    && (0 < |data| <= |prior| ==> c[|prior|] == moved)
  }

  /**
   * Whenever the old content is at least as long as `data` and holds no
   * NUL, what `prepend` leaves is not `data` followed by the old content:
   * at the old size there is a NUL where the shifted content would have a
   * character of its own.
   */
  lemma PrependLosesContent(prior: seq<char>, data: seq<char>, c: seq<char>)
    requires 0 < |data| <= |prior| && '\0' !in prior
    requires PrependedAsWritten(prior, data, '\0', c)
    ensures c != data + prior
  {
    assert (data + prior)[|prior|] == prior[|prior| - |data|];
    assert prior[|prior| - |data|] in prior;
  }

  /** `"ab"` prepended to `"xyz"`: as written the buffer reads `a`, `b`, `z`, NUL and one stale character. */
  lemma PrependExample(c: seq<char>)
    requires PrependedAsWritten("xyz", "ab", '\0', c)
    ensures c[..4] == ['a', 'b', 'z', '\0'] && c != "abxyz"
  {
    assert c[..2] == "ab";
    assert c[0] == 'a' && c[1] == 'b';
    PrependLosesContent("xyz", "ab", c);
  }

  /** `s` with the `len` characters at `dst` replaced by the `len` characters that stood at `src`. */
  function Moved(s: seq<char>, dst: nat, src: nat, len: nat): (r: seq<char>)
    requires src + len <= |s| && dst + len <= |s|
    ensures |r| == |s|
  {
    s[..dst] + s[src..src + len] + s[dst + len..]
  }

  lemma MovedAt(s: seq<char>, dst: nat, src: nat, len: nat, p: nat)
    requires src + len <= |s| && dst + len <= |s| && p < |s|
    ensures Moved(s, dst, src, len)[p] == if dst <= p < dst + len then s[p - dst + src] else s[p]
  {
    var m := Moved(s, dst, src, len);
    if p < dst {
      assert m[p] == s[..dst][p];
    } else if p < dst + len {
      assert m[p] == s[src..src + len][p - dst];
    } else {
      assert m[p] == s[dst + len..][p - dst - len];
    }
  }

  /**
   * `std::memmove(&a[dst], &a[src], len)`: the `len` characters at `src`
   * land at `dst`, read before any is overwritten, and nothing else
   * changes.  The copy runs forwards or backwards as the overlap needs.
   */
  method Memmove(a: array<char>, dst: nat, src: nat, len: nat)
    requires src + len <= a.Length && dst + len <= a.Length
    modifies a
    ensures a[..] == Moved(old(a[..]), dst, src, len)
  {
    ghost var s := a[..];
    if dst <= src {
      CopyForward(a, dst, src, len);
    } else {
      CopyBackward(a, dst, src, len);
    }
    forall p | 0 <= p < a.Length ensures a[..][p] == Moved(s, dst, src, len)[p] {
      MovedAt(s, dst, src, len, p);
      assert a[..][p] == a[p];
    }
  }

  /** The copy from the front, safe when the destination starts no later than the source. */
  method CopyForward(a: array<char>, dst: nat, src: nat, len: nat)
    requires src + len <= a.Length && dst + len <= a.Length && dst <= src
    modifies a
    ensures forall p | 0 <= p < a.Length :: a[p] == if dst <= p < dst + len then old(a[p - dst + src]) else old(a[p])
  {
    var k := 0;
    while k < len
      invariant 0 <= k <= len
      invariant forall p | 0 <= p < a.Length :: a[p] == if dst <= p < dst + k then old(a[p - dst + src]) else old(a[p])
    {
      a[dst + k] := a[src + k];
      k := k + 1;
    }
  }

  /** The copy from the back, safe when the destination starts after the source. */
  method CopyBackward(a: array<char>, dst: nat, src: nat, len: nat)
    requires src + len <= a.Length && dst + len <= a.Length && src < dst
    modifies a
    ensures forall p | 0 <= p < a.Length :: a[p] == if dst <= p < dst + len then old(a[p - dst + src]) else old(a[p])
  {
    var j := len;
    while j > 0
      invariant 0 <= j <= len
      invariant forall p | 0 <= p < a.Length :: a[p] == if dst + j <= p < dst + len then old(a[p - dst + src]) else old(a[p])
    {
      j := j - 1;
      a[dst + j] := a[src + j];
    }
  }

  /** `s` with `data` written over it at `dst`. */
  function Copied(s: seq<char>, dst: nat, data: seq<char>): (r: seq<char>)
    requires dst + |data| <= |s|
    ensures |r| == |s|
  {
    s[..dst] + data + s[dst + |data|..]
  }

  lemma CopiedAt(s: seq<char>, dst: nat, data: seq<char>, p: nat)
    requires dst + |data| <= |s| && p < |s|
    ensures Copied(s, dst, data)[p] == if dst <= p < dst + |data| then data[p - dst] else s[p]
  {
    var m := Copied(s, dst, data);
    if p < dst {
      assert m[p] == s[..dst][p];
    } else if p < dst + |data| {
      assert m[p] == data[p - dst];
    } else {
      assert m[p] == s[dst + |data|..][p - dst - |data|];
    }
  }

  /** `std::memcpy(&a[dst], data, |data|)`: `data` lands at `dst` and nothing else changes. */
  method Memcpy(a: array<char>, dst: nat, data: seq<char>)
    requires dst + |data| <= a.Length
    modifies a
    ensures a[..] == Copied(old(a[..]), dst, data)
  {
    ghost var s := a[..];
    var k := 0;
    while k < |data|
      invariant 0 <= k <= |data|
      invariant forall p | 0 <= p < a.Length :: a[p] == if dst <= p < dst + k then data[p - dst] else old(a[p])
    {
      a[dst + k] := data[k];
      k := k + 1;
    }
    forall p | 0 <= p < a.Length ensures a[..][p] == Copied(s, dst, data)[p] {
      CopiedAt(s, dst, data, p);
      assert a[..][p] == a[p] && s[p] == old(a[p]);
    }
  }

  /** Lines 37-38 of `prepend`: one character moved from `src` to `dst`, then `data` copied over the front. */
  method MoveThenCopy(a: array<char>, dst: nat, src: nat, data: seq<char>)
    requires src < a.Length && dst < a.Length && |data| <= a.Length
    modifies a
    ensures a[..] == Copied(Moved(old(a[..]), dst, src, 1), 0, data)
  {
    Memmove(a, dst, src, 1);
    Memcpy(a, 0, data);
  }

  /** Copying `data` at the end of the content gives the content followed by `data`. */
  lemma CopiedAtEnd(pre: seq<char>, size: nat, data: seq<char>)
    requires size + |data| <= |pre|
    ensures Copied(pre, size, data)[..size + |data|] == pre[..size] + data
  {
    var r := Copied(pre, size, data);
    forall p | 0 <= p < size + |data| ensures r[p] == (pre[..size] + data)[p] {
      CopiedAt(pre, size, data, p);
    }
  }

  /**
   * The two copies of `prepend` as written: the character at `size` (the
   * terminator, unless the storage was just reallocated) moved to
   * `size + |data|`, then `data` over the front.
   */
  lemma TerminatorMovedThenCopied(pre: seq<char>, size: nat, data: seq<char>)
    requires 0 < |data| && size + |data| < |pre|
    ensures PrependedAsWritten(pre[..size], data, pre[size], Copied(Moved(pre, size + |data|, size, 1), 0, data)[..size + |data|])
  {
    var mid := Moved(pre, size + |data|, size, 1);
    var c := Copied(mid, 0, data)[..size + |data|];
    assert c[..|data|] == data by {
      forall p | 0 <= p < |data| ensures c[p] == data[p] {
        CopiedAt(mid, 0, data, p);
      }
    }
    forall k | |data| <= k <= size ensures c[k] == pre[k] {
      CopiedAt(mid, 0, data, k);
      MovedAt(pre, size + |data|, size, 1, k);
    }
  }

  /** The two copies of the shifting `prepend`: the content and terminator moved right by `|data|`, then `data` in front. */
  lemma ShiftedThenCopied(pre: seq<char>, size: nat, data: seq<char>)
    requires size + |data| < |pre|
    ensures var r := Copied(Moved(pre, |data|, 0, size + 1), 0, data);
      r[..|data| + size] == data + pre[..size] && r[|data| + size] == pre[size]
  {
    var mid := Moved(pre, |data|, 0, size + 1);
    var r := Copied(mid, 0, data);
    forall p | 0 <= p <= |data| + size ensures r[p] == (data + pre[..size + 1])[p] {
      CopiedAt(mid, 0, data, p);
      MovedAt(pre, |data|, 0, size + 1, p);
    }
  }

  /**
   * The state of a `StringBuffer`: `block` is the storage of `buffer_`,
   * `capacity + 1` characters; `length` is `buffer_.size()`; `size` is
   * `size_`.
   */
  datatype Storage = Storage(block: seq<char>, length: nat, size: nat)

  /** Both lengths fall inside the storage block. */
  predicate Sound(s: Storage)
  {
    s.length < |s.block| && s.size < |s.block|
  }

  /** Sound, and the terminator stands right after the content. */
  predicate Terminated(s: Storage)
  {
    Sound(s) && s.block[s.size] == '\0'
  }

  /** The content: the `size_` characters before the terminator. */
  function Text(s: Storage): (t: seq<char>)
    requires Sound(s)
    ensures |t| == s.size
  {
    s.block[..s.size]
  }

  /** `StringBuffer(initial_size)`: `initial_size` NULs, none of them content. */
  function Initial(initialSize: nat): (s: Storage)
    ensures Terminated(s) && Text(s) == [] && s.length == initialSize && |s.block| == initialSize + 1
  {
    Storage(seq(initialSize + 1, _ => '\0'), initialSize, 0)
  }

  /**
   * The block `ensure_capacity` builds, as written: room for `minCapacity`
   * characters, then `append(buffer_, size_)`, which copies the characters
   * of `buffer_` from `size_` up to its length (the tail after the content,
   * not the content), then the NUL of `push_back`.  What lies after that is
   * unspecified in the source; the model fills it with NUL.
   */
  function Reallocated(block: seq<char>, size: nat, length: nat, minCapacity: nat): (r: seq<char>)
    requires size <= length < |block| <= minCapacity
    ensures |r| == minCapacity + 1
    ensures forall k | 0 <= k < |r| :: r[k] == if k < length - size then block[size + k] else '\0'
  {
    block[size..length] + seq(minCapacity + 1 - (length - size), _ => '\0')
  }

  /**
   * `ensure_capacity(minCapacity)` as written: nothing when the capacity
   * suffices; otherwise `None` when `size_` is past the length of
   * `buffer_` (`append(buffer_, size_)` throws `std::out_of_range`), and
   * else the reallocated block, whose length is the copied tail plus the NUL.
   */
  function Reserved(s: Storage, minCapacity: nat): (r: Option<Storage>)
    requires Sound(s)
    ensures r.None? <==> |s.block| <= minCapacity && s.size > s.length
    ensures r.Some? ==> Sound(r.value) && r.value.size == s.size && minCapacity < |r.value.block|
    ensures minCapacity < |s.block| ==> r == Some(s)
  {
    if minCapacity < |s.block| then Some(s)
    else if s.size > s.length then None
    else Some(Storage(Reallocated(s.block, s.size, s.length, minCapacity), s.length - s.size + 1, s.size))
  }

  /** The `size_` characters at the front of the storage once `ensure_capacity(minCapacity)` has run. */
  function Kept(s: Storage, minCapacity: nat): (k: seq<char>)
    requires Sound(s) && Reserved(s, minCapacity).Some?
    ensures |k| == s.size
  {
    Text(Reserved(s, minCapacity).value)
  }

  /** `append(data, n)` as written; `None` when `ensure_capacity` throws. */
  function Appended(s: Storage, data: seq<char>): (r: Option<Storage>)
    requires Sound(s)
    ensures r.None? <==> data != [] && Reserved(s, s.size + |data| + 1).None?
    ensures r.Some? ==> Sound(r.value) && r.value.size == s.size + |data|
  {
    if data == [] then Some(s)
    else match Reserved(s, s.size + |data| + 1)
      case None => None
      case Some(g) =>
        var n := g.size + |data|;
        Some(Storage(Copied(g.block, g.size, data)[n := '\0'], g.length, n))
  }

  /** `prepend(data, n)` as written; `None` when `ensure_capacity` throws. */
  function Prepended(s: Storage, data: seq<char>): (r: Option<Storage>)
    requires Sound(s)
    ensures r.None? <==> data != [] && Reserved(s, s.size + |data| + 1).None?
    ensures r.Some? ==> Sound(r.value) && r.value.size == s.size + |data|
  {
    if data == [] then Some(s)
    else match Reserved(s, s.size + |data| + 1)
      case None => None
      case Some(g) =>
        var n := g.size + |data|;
        Some(Storage(Copied(Moved(g.block, n, g.size, 1), 0, data)[n := '\0'], g.length, n))
  }

  /** `Appended` once `ensure_capacity` has produced `g`. */
  lemma AppendedStep(s: Storage, data: seq<char>, g: Storage)
    requires Sound(s) && data != [] && Reserved(s, s.size + |data| + 1) == Some(g)
    ensures Appended(s, data) == Some(Storage(Copied(g.block, g.size, data)[g.size + |data| := '\0'], g.length, g.size + |data|))
  {
  }

  /** `Prepended` once `ensure_capacity` has produced `g`. */
  lemma PrependedStep(s: Storage, data: seq<char>, g: Storage)
    requires Sound(s) && data != [] && Reserved(s, s.size + |data| + 1) == Some(g)
    ensures Prepended(s, data) == Some(Storage(Copied(Moved(g.block, g.size + |data|, g.size, 1), 0, data)[g.size + |data| := '\0'], g.length, g.size + |data|))
  {
  }

  /** A successful `append` leaves what `ensure_capacity` kept, then `data`, then the terminator. */
  lemma AppendedContents(s: Storage, data: seq<char>)
    requires Terminated(s) && data != [] && Appended(s, data).Some?
    ensures Reserved(s, s.size + |data| + 1).Some?
    ensures Terminated(Appended(s, data).value)
    ensures Text(Appended(s, data).value) == Kept(s, s.size + |data| + 1) + data
  {
    var g := Reserved(s, s.size + |data| + 1).value;
    var n := g.size + |data|;
    var c := Copied(g.block, g.size, data);
    CopiedAtEnd(g.block, g.size, data);
    assert c[n := '\0'][..n] == c[..n];
  }

  /** Without reallocation, `append` leaves the old content followed by `data`. */
  lemma AppendInPlace(s: Storage, data: seq<char>)
    requires Terminated(s) && s.size + |data| + 1 < |s.block|
    ensures Appended(s, data).Some?
    ensures Terminated(Appended(s, data).value) && Text(Appended(s, data).value) == Text(s) + data
  {
    if data != [] {
      AppendedContents(s, data);
    }
  }

  /**
   * Reallocation as written puts the tail after the content in front,
   * then a NUL: the first character kept is always NUL (the old
   * terminator or the pushed one), so content that held no NUL is lost.
   */
  lemma GrowthLosesContent(s: Storage, minCapacity: nat)
    requires Terminated(s) && |s.block| <= minCapacity && 0 < s.size <= s.length
    ensures Reserved(s, minCapacity).Some? && Kept(s, minCapacity)[0] == '\0'
    ensures '\0' !in Text(s) ==> Kept(s, minCapacity) != Text(s)
  {
    var r := Reallocated(s.block, s.size, s.length, minCapacity);
    assert Kept(s, minCapacity)[0] == r[0];
    if '\0' !in Text(s) {
      assert Text(s)[0] in Text(s);
    }
  }

  /** A successful `prepend`, with or without reallocation, in terms of what `ensure_capacity` kept. */
  lemma PrependedContents(s: Storage, data: seq<char>)
    requires Terminated(s) && data != [] && Prepended(s, data).Some?
    ensures Reserved(s, s.size + |data| + 1).Some?
    ensures var g := Reserved(s, s.size + |data| + 1).value;
      Terminated(Prepended(s, data).value)
      && PrependedAsWritten(Text(g), data, g.block[g.size], Text(Prepended(s, data).value))
  {
    var g := Reserved(s, s.size + |data| + 1).value;
    var n := g.size + |data|;
    var c := Copied(Moved(g.block, n, g.size, 1), 0, data);
    TerminatorMovedThenCopied(g.block, g.size, data);
    assert c[n := '\0'][..n] == c[..n];
  }

  /** Without reallocation, the character `prepend` moves is the terminator. */
  lemma PrependInPlace(s: Storage, data: seq<char>)
    requires Terminated(s) && data != [] && s.size + |data| + 1 < |s.block|
    ensures Prepended(s, data).Some? && Terminated(Prepended(s, data).value)
    ensures PrependedAsWritten(Text(s), data, '\0', Text(Prepended(s, data).value))
  {
    PrependedContents(s, data);
  }

  /**
   * The state `remove(index, count)` leaves, as written: with `count`
   * clamped to `c`, the `memmove` of the rest and the terminator `c`
   * places left, then a NUL at the new size.  The block keeps its length,
   * and so does `buffer_`.
   */
  function RemovedState(s: Storage, index: nat, count: nat): (r: Storage)
    requires Terminated(s)
    ensures Terminated(r) && r.length == s.length && |r.block| == |s.block|
    ensures r.size == |Removed(Text(s), index, count)|
    ensures index >= s.size ==> r == s
  {
    if index >= s.size then s
    else
      var c := if count >= s.size - index then s.size - index else count;
      Storage(Moved(s.block, index, index + c, s.size - index - c + 1)[s.size - c := '\0'], s.length, s.size - c)
  }

  /** `RemovedState` once `count` is clamped to `c`. */
  lemma RemovedStep(s: Storage, index: nat, count: nat, c: nat)
    requires Terminated(s) && index < s.size && c == (if count >= s.size - index then s.size - index else count)
    ensures RemovedState(s, index, count) == Storage(Moved(s.block, index, index + c, s.size - index - c + 1)[s.size - c := '\0'], s.length, s.size - c)
  {
  }

  /** The content after `remove` is `Removed` of the content before. */
  lemma RemovedStateContents(s: Storage, index: nat, count: nat)
    requires Terminated(s)
    ensures Text(RemovedState(s, index, count)) == Removed(Text(s), index, count)
  {
    if index < s.size {
      var c := if count >= s.size - index then s.size - index else count;
      var t := s.block[..s.size];
      var m := Moved(s.block, index, index + c, s.size - index - c + 1);
      var r := RemovedState(s, index, count);
      RemovedStep(s, index, count, c);
      assert Text(r) == m[..s.size - c] by {
        UpdatedPrefix(m, s.size - c, '\0');
      }
      ShiftedLeft(s.block, index, c, s.size);
      assert s.block[..index] == t[..index];
      RemovedClamped(t, index, count, c);
    }
  }

  /** Writing at `n` leaves the first `n` characters alone. */
  lemma UpdatedPrefix(m: seq<char>, n: nat, x: char)
    requires n < |m|
    ensures m[n := x][..n] == m[..n]
  {
  }

  /**
   * `StringBuffer sb(16)`, `append("abc", 3)`, then forty characters:
   * the second append needs a capacity of 44, more than `sb(16)` starts
   * with here or in the common libraries (30 in libstdc++, 22 in libc++),
   * so it reallocates, and the content then reads three NULs followed by
   * the forty characters.
   */
  lemma GrowthExample(more: seq<char>)
    requires |more| == 40
    ensures Appended(Initial(16), "abc").Some?
    ensures var s := Appended(Initial(16), "abc").value;
      Appended(s, more).Some? && Text(Appended(s, more).value) == "\0\0\0" + more
  {
    var i := Initial(16);
    AppendInPlace(i, "abc");
    var s := Appended(i, "abc").value;
    assert s.length == 16 && |s.block| == 17;
    forall p | 3 <= p < 17 ensures s.block[p] == '\0' {
      CopiedAt(i.block, 0, "abc", p);
    }
    AppendedContents(s, more);
    var r := Reallocated(s.block, 3, 16, 44);
    assert Kept(s, 44) == r[..3];
    assert r[..3] == "\0\0\0";
  }

  /**
   * `StringBuffer sb(16)`, ten characters, ten more, then thirty more:
   * the third `append` throws `std::out_of_range`.  With the exact
   * capacity of this model, the second append reallocates and leaves
   * `buffer_` seven characters long, so `size_`, 20, is past it at the
   * third.  A library that starts with more capacity (30 in libstdc++,
   * 22 in libc++) reallocates only at the third append, where `size_`,
   * 20, is past the 16 characters of `buffer_`: it throws there too.
   */
  lemma ThrowExample(a: seq<char>, b: seq<char>, c: seq<char>)
    requires |a| == 10 && |b| == 10 && |c| == 30
    ensures Appended(Initial(16), a).Some?
    ensures var s := Appended(Initial(16), a).value;
      Appended(s, b).Some? && Appended(Appended(s, b).value, c) == None
  {
    var s := Appended(Initial(16), a).value;
    assert s.length == 16 && s.size == 10 && |s.block| == 17;
    var t := Appended(s, b).value;
    assert t.length == 7 && t.size == 20 && |t.block| == 22;
  }

  /**
   * The same calls when `resize(16)` leaves a capacity `capacity` between
   * 21 and 50 (30 in libstdc++, 22 in libc++): the first two appends fit,
   * and the third reallocates with `size_` 20 past the 16 characters of
   * `buffer_`, so it throws.
   */
  lemma ThrowWithSlack(capacity: nat, a: seq<char>, b: seq<char>, c: seq<char>)
    requires 21 <= capacity <= 50 && |a| == 10 && |b| == 10 && |c| == 30
    ensures var i := Storage(seq(capacity + 1, _ => '\0'), 16, 0);
      Terminated(i)
      && Appended(i, a).Some? && Appended(Appended(i, a).value, b).Some?
      && Appended(Appended(Appended(i, a).value, b).value, c) == None
  {
    var i := Storage(seq(capacity + 1, _ => '\0'), 16, 0);
    var s := Appended(i, a).value;
    assert s.length == 16 && s.size == 10 && |s.block| == capacity + 1;
    var t := Appended(s, b).value;
    assert t.length == 16 && t.size == 20 && |t.block| == capacity + 1;
  }

  class StringBuffer {
    var buffer: array<char>
    /** `buffer_.size()`. */
    var length: nat
    var size: nat

    /** The whole state as a value. */
    function State(): (s: Storage)
      reads this, buffer
      ensures Sound(s) <==> length < buffer.Length && size < buffer.Length
      ensures Sound(s) ==> (Terminated(s) <==> buffer[size] == '\0') && Text(s) == buffer[..size]
    {
      Storage(buffer[..], length, size)
    }

    /** Both lengths fit in the storage, and the terminator stands right after the content. */
    predicate Valid()
      reads this, buffer
    {
      length < buffer.Length && size < buffer.Length && buffer[size] == '\0'
    }

    /** The characters before the terminator: what `value()` points at when none of them is NUL. */
    function Contents(): (s: seq<char>)
      reads this, buffer
      requires Valid()
      ensures |s| == size
    {
      buffer[..size]
    }

    /** How many characters fit before the terminator slot. */
    function Capacity(): int
      reads this
    {
      buffer.Length - 1
    }

    /** `size()`. */
    function Size(): (n: nat)
      reads this, buffer
      requires Valid()
      ensures n == |Contents()|
    {
      size
    }

    /** `StringBuffer(initial_size)`: empty content over `initial_size` NULs, `initial_size` characters of capacity. */
    constructor (initialSize: nat)
      ensures Valid() && State() == Initial(initialSize) && Contents() == [] && Capacity() == initialSize
      ensures fresh(buffer)
    {
      var a := new char[initialSize + 1](_ => '\0');
      assert a[..] == seq(initialSize + 1, _ => '\0');
      buffer := a;
      length := initialSize;
      size := 0;
    }

    /**
     * `ensure_capacity` as written: `false` when it throws
     * `std::out_of_range`, with nothing changed; otherwise the state is
     * `Reserved(old state)`, in a new storage block when the old one was
     * too small.
     */
    method EnsureCapacity(minCapacity: nat) returns (ok: bool)
      requires Valid()
      modifies this
      ensures ok == Reserved(old(State()), minCapacity).Some?
      ensures ok ==> State() == Reserved(old(State()), minCapacity).value
      ensures !ok ==> buffer == old(buffer) && length == old(length) && size == old(size)
      ensures buffer == old(buffer) || fresh(buffer)
    {
      if Capacity() >= minCapacity {
        return true;
      }
      if size > length {
        return false;
      }
      ghost var r := Reallocated(buffer[..], size, length, minCapacity);
      var newBuffer := new char[minCapacity + 1](_ => '\0');
      forall k | 0 <= k < length - size {
        newBuffer[k] := buffer[size + k];
      }
      assert newBuffer[..] == r by {
        forall p | 0 <= p < minCapacity + 1 ensures newBuffer[..][p] == r[p] {
        }
      }
      buffer := newBuffer;
      length := length - size + 1;
      ok := true;
    }

    /**
     * `append(data, size)` as written: `false` when `ensure_capacity`
     * throws, with nothing changed; otherwise the state is
     * `Appended(old state)`.  Without reallocation that is the old content
     * followed by `data`.
     */
    method AppendChars(data: seq<char>) returns (ok: bool)
      requires Valid()
      modifies this, buffer
      ensures Valid() && (buffer == old(buffer) || fresh(buffer))
      ensures ok == Appended(old(State()), data).Some?
      ensures ok ==> State() == Appended(old(State()), data).value
      ensures !ok ==> buffer == old(buffer) && length == old(length) && size == old(size) && unchanged(buffer)
      ensures old(Capacity()) > old(size) + |data| ==> ok && Contents() == old(Contents()) + data
    {
      ghost var s := State();
      if |data| == 0 {
        return true;
      }
      ok := EnsureCapacity(size + |data| + 1);
      if !ok {
        return;
      }
      ghost var g := State();
      AppendedStep(s, data, g);
      AppendWrites(data, g);
      if s.size + |data| + 1 < |s.block| {
        AppendInPlace(s, data);
      }
    }

    /** The writes of `append`, once the capacity suffices: `data` after the content, a new terminator. */
    method AppendWrites(data: seq<char>, ghost g: Storage)
      requires g == State() && Sound(g) && g.size + |data| + 1 < |g.block|
      modifies this, buffer
      ensures buffer == old(buffer)
      ensures State() == Storage(Copied(g.block, g.size, data)[g.size + |data| := '\0'], g.length, g.size + |data|)
    {
      var b := buffer;
      Memcpy(b, size, data);
      ghost var c := b[..];
      size := size + |data|;
      b[size] := '\0';
      assert b[..] == c[size := '\0'];
    }

    /** `append(c)`: appending the one character `c`, as written. */
    method Append(c: char) returns (ok: bool)
      requires Valid()
      modifies this, buffer
      ensures Valid() && (buffer == old(buffer) || fresh(buffer))
      ensures ok == Appended(old(State()), [c]).Some?
      ensures ok ==> State() == Appended(old(State()), [c]).value
      ensures !ok ==> buffer == old(buffer) && length == old(length) && size == old(size) && unchanged(buffer)
    {
      ok := AppendChars([c]);
    }

    /**
     * `prepend(data, size)` as written: `false` when `ensure_capacity`
     * throws, with nothing changed; otherwise the state is
     * `Prepended(old state)`: only the character at the old size is moved
     * to its new place, then `data` is copied over the front, so the old
     * content is overwritten instead of shifted.
     */
    method PrependChars(data: seq<char>) returns (ok: bool)
      requires Valid()
      modifies this, buffer
      ensures Valid() && (buffer == old(buffer) || fresh(buffer))
      ensures ok == Prepended(old(State()), data).Some?
      ensures ok ==> State() == Prepended(old(State()), data).value
      ensures !ok ==> buffer == old(buffer) && length == old(length) && size == old(size) && unchanged(buffer)
      ensures old(Capacity()) > old(size) + |data| && |data| > 0 ==> ok && PrependedAsWritten(old(Contents()), data, '\0', Contents())
    {
      ghost var s := State();
      if |data| == 0 {
        return true;
      }
      ok := EnsureCapacity(size + |data| + 1);
      if !ok {
        return;
      }
      ghost var g := State();
      PrependedStep(s, data, g);
      PrependWrites(data, g);
      if s.size + |data| + 1 < |s.block| {
        PrependInPlace(s, data);
      }
    }

    /** The writes of `prepend`, once the capacity suffices: the character at the size moved, `data` over the front, a new terminator. */
    method PrependWrites(data: seq<char>, ghost g: Storage)
      requires g == State() && Sound(g) && g.size + |data| + 1 < |g.block|
      modifies this, buffer
      ensures buffer == old(buffer)
      ensures State() == Storage(Copied(Moved(g.block, g.size + |data|, g.size, 1), 0, data)[g.size + |data| := '\0'], g.length, g.size + |data|)
    {
      var b := buffer;
      var n := size + |data|;
      MoveThenCopy(b, n, size, data);
      ghost var c := b[..];
      b[n] := '\0';
      assert b[..] == c[n := '\0'];
      size := n;
    }

    /** `prepend(c)`: prepending the one character `c`, as written. */
    method Prepend(c: char) returns (ok: bool)
      requires Valid()
      modifies this, buffer
      ensures Valid() && (buffer == old(buffer) || fresh(buffer))
      ensures ok == Prepended(old(State()), [c]).Some?
      ensures ok ==> State() == Prepended(old(State()), [c]).value
      ensures !ok ==> buffer == old(buffer) && length == old(length) && size == old(size) && unchanged(buffer)
    {
      ok := PrependChars([c]);
    }

    /**
     * The `ensure_capacity` the comment in strbuffer.cpp describes,
     * `append(buffer_, 0, size_)`: a new storage block of exactly
     * `minCapacity` characters that holds the content and its terminator.
     */
    method EnsureCapacityCopying(minCapacity: nat)
      requires Valid()
      modifies this
      ensures Valid() && size == old(size) && Contents() == old(Contents())
      ensures Capacity() >= minCapacity
      ensures old(Capacity()) >= minCapacity ==> buffer == old(buffer) && length == old(length)
      ensures old(Capacity()) < minCapacity ==> fresh(buffer) && Capacity() == minCapacity && length == size + 1
    {
      if Capacity() >= minCapacity {
        return;
      }
      var newBuffer := new char[minCapacity + 1](_ => '\0');
      forall k | 0 <= k < size {
        newBuffer[k] := buffer[k];
      }
      newBuffer[size] := '\0';
      buffer := newBuffer;
      length := size + 1;
    }

    /** `append` over the copying `ensure_capacity`: the content grows by `data`; empty data changes nothing. */
    method AppendCopying(data: seq<char>)
      requires Valid()
      modifies this, buffer
      ensures Valid() && Contents() == old(Contents()) + data
      ensures buffer == old(buffer) || fresh(buffer)
      ensures |data| == 0 ==> buffer == old(buffer) && unchanged(buffer)
    {
      if |data| > 0 {
        ghost var before := Contents();
        EnsureCapacityCopying(size + |data| + 1);
        var b := buffer;
        ghost var pre := b[..];
        Memcpy(b, size, data);
        assert b[..size + |data|] == before + data by {
          assert b[..size + |data|] == b[..][..size + |data|];
          CopiedAtEnd(pre, size, data);
        }
        size := size + |data|;
        b[size] := '\0';
      }
    }

    /**
     * The `prepend` the comments in strbuffer.cpp describe, over the
     * copying `ensure_capacity`: the old content, with its terminator,
     * moved right by `|data|` (from the end, as `memmove` does), then
     * `data` copied in front.
     */
    method PrependShifted(data: seq<char>)
      requires Valid()
      modifies this, buffer
      ensures Valid() && Contents() == data + old(Contents())
      ensures buffer == old(buffer) || fresh(buffer)
    {
      if |data| > 0 {
        ghost var before := Contents();
        EnsureCapacityCopying(size + |data| + 1);
        var n := |data|;
        var b := buffer;
        ghost var pre := b[..];
        Memmove(b, n, 0, size + 1);
        Memcpy(b, 0, data);
        ghost var post := b[..];
        assert post[..n + size] == data + before && post[n + size] == '\0' by {
          ShiftedThenCopied(pre, size, data);
          assert pre[..size] == before;
        }
        size := size + n;
        assert b[..size] == post[..size] && b[size] == post[size];
      }
    }

    /**
     * `remove(index, count)`: nothing when `index` is at or past the end;
     * otherwise `count` is clamped to what follows `index` and the rest,
     * with the terminator, is moved left over the removed characters.
     * The characters beyond the new terminator stay in the block.
     */
    method Remove(index: nat, count: nat)
      requires Valid()
      modifies this, buffer
      ensures Valid() && State() == RemovedState(old(State()), index, count)
      ensures Contents() == Removed(old(Contents()), index, count)
      ensures buffer == old(buffer) && length == old(length)
    {
      ghost var s := State();
      if index >= size {
        return;
      }
      var c := if count >= size - index then size - index else count;
      RemovedStep(s, index, count, c);
      ShiftLeft(index, c, s);
      RemovedStateContents(s, index, count);
    }

    /** The writes of `remove`, once `count` is clamped to `c`: the rest moved left over the `c` characters at `index`, a new terminator. */
    method ShiftLeft(index: nat, c: nat, ghost g: Storage)
      requires g == State() && Sound(g) && index + c <= g.size
      modifies this, buffer
      ensures buffer == old(buffer)
      ensures State() == Storage(Moved(g.block, index, index + c, g.size - index - c + 1)[g.size - c := '\0'], g.length, g.size - c)
    {
      var b := buffer;
      Memmove(b, index, index + c, size - index - c + 1);
      ghost var m := b[..];
      size := size - c;
      b[size] := '\0';
      assert b[..] == m[size := '\0'];
    }

    /** `clear()`: empty content, the terminator at the front, the rest of the block kept. */
    method Clear()
      requires Valid()
      modifies this, buffer
      ensures Valid() && Contents() == []
      ensures buffer == old(buffer) && length == old(length) && size == 0
      ensures buffer[..] == old(buffer[..])[0 := '\0']
    {
      size := 0;
      buffer[0] := '\0';
    }
  }

  /**
   * Calls on one buffer chain, as the `*this` that `append`, `prepend`
   * and `remove` return allows: `sb(16)`, `append("ab")`, `append("cd")`,
   * `remove(0, 1)`, `clear()`, `append("x")`.
   */
  method ChainExample() returns (before: seq<char>, after: seq<char>)
    ensures before == "bcd" && after == "x"
  {
    var sb := new StringBuffer(16);
    var ok := sb.AppendChars("ab");
    ok := sb.AppendChars("cd");
    assert sb.Contents() == "abcd";
    sb.Remove(0, 1);
    before := sb.Contents();
    sb.Clear();
    ok := sb.AppendChars("x");
    after := sb.Contents();
  }
}
