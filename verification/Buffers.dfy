/**
 * The output buffers behind format_to_n: all deliver the first elements up to a limit and count
 * every element, whichever way the text is cut into pieces.
 */
module Buffers {

  const BUFFER_SIZE: nat := 256

  /** What a limit of n lets through. */
  function Truncated(n: nat, total: string): (d: string)
    ensures |d| <= n && |d| <= |total|
  {
    if |total| <= n then total else total[..n]
  }

  /** Cutting twice at the same limit is cutting once, piece by piece. */
  lemma TruncatedAppend(n: nat, a: string, b: string)
    ensures Truncated(n, a + b) == Truncated(n, a) + Truncated(n - |Truncated(n, a)|, b)
  {
    if |a| >= n {
      assert Truncated(n, a + b) == Truncated(n, a);
    } else if |a + b| > n {
      assert (a + b)[..n] == a + b[..n - |a|];
    }
  }

  /** What comes after the limit makes no difference. */
  lemma TruncatedPrefix(n: nat, total: string, k: nat)
    requires k <= |total|
    ensures Truncated(n, total[..k]) == Truncated(n, total) <==> k >= n || k == |total|
  {
    if k == |total| {
      assert total[..k] == total;
    } else if k >= n {
      assert total[..k][..n] == total[..n];
    }
  }

  // ----- the counting and limiting traits -----

  class FixedBufferTraits {
    var flushed: nat
    const limit: nat

    constructor (limit: nat)
      ensures this.limit == limit && flushed == 0
    {
      this.limit := limit;
      flushed := 0;
    }

    /** How many of the next elements fit, all of them counted. */
    method Limit(size: nat) returns (n: nat)
      modifies this
      ensures flushed == old(flushed) + size
      ensures forall done: string, more: string :: |done| == old(flushed) && |more| == size ==>
                n <= size && Truncated(limit, done + more) == Truncated(limit, done) + more[..n]
    {
      var free := if limit > flushed then limit - flushed else 0;
      flushed := flushed + size;
      n := if size < free then size else free;
      forall done: string, more: string | |done| == old(flushed) && |more| == size
        ensures Truncated(limit, done + more) == Truncated(limit, done) + more[..n]
      {
        TruncatedAppend(limit, done, more);
      }
    }
  }

  // ----- the buffer in front of an output iterator -----

  class IteratorBuffer {
    const traits: FixedBufferTraits
    const data: array<char>
    var size: nat
    var out: string
    ghost var total: string

    constructor (limit: nat)
      ensures Valid() && fresh(traits) && fresh(data) && total == "" && traits.limit == limit
    {
      traits := new FixedBufferTraits(limit);
      data := new char[BUFFER_SIZE];
      size, out, total := 0, "", "";
    }

    /** The elements so far are what was flushed, truncated on its way out, and what is in the buffer. */
    ghost predicate Valid()
      reads this, traits, data
    {
      && data.Length == BUFFER_SIZE && size <= BUFFER_SIZE
      && |total| == traits.flushed + size
      && total[traits.flushed..] == data[..size]
      && out == Truncated(traits.limit, total[..traits.flushed])
    }

    method Flush()
      requires Valid()
      modifies this, traits
      ensures Valid() && size == 0 && total == old(total)
    {
      var size0 := size;
      size := 0;
      ghost var done := total[..traits.flushed];
      var n := traits.Limit(size0);
      assert |done| == old(traits.flushed) && |data[..size0]| == size0;
      assert total == done + data[..size0];
      out := out + data[..n];
      assert data[..size0][..n] == data[..n];
      assert total[..traits.flushed] == total;
    }

    method Grow()
      requires Valid()
      modifies this, traits
      ensures Valid() && total == old(total) && size < BUFFER_SIZE
      ensures old(size) < BUFFER_SIZE ==> size == old(size)
    {
      if size == BUFFER_SIZE { Flush(); }
    }

    method PushBack(value: char)
      requires Valid()
      modifies this, traits, data
      ensures Valid() && total == old(total) + [value]
    {
      if size + 1 > BUFFER_SIZE { Grow(); }
      data[size] := value;
      size := size + 1;
      total := total + [value];
    }

    method Fill(piece: string)
      requires Valid() && size + |piece| <= BUFFER_SIZE
      modifies this, data
      ensures Valid() && total == old(total) + piece
    {
      Copy(data, size, piece);
      size := size + |piece|;
      total := total + piece;
      assert total[traits.flushed..] == old(total[traits.flushed..]) + piece;
    }

    /** Pieces as large as fit, until the text is used up. */
    method Append(text: string)
      requires Valid()
      modifies this, traits, data
      ensures Valid() && total == old(total) + text
    {
      hide *;
      var begin := 0;
      ghost var before := total;
      assert text[..0] == "" && before + "" == before;
      while begin != |text|
        invariant begin <= |text| && Valid() && total == before + text[..begin]
        decreases |text| - begin
      {
        var count := |text| - begin;
        if size + count > BUFFER_SIZE { Grow(); }
        var free := BUFFER_SIZE - size;
        if free < count { count := free; }
        TakeMore(before, text, begin, count);
        Fill(text[begin..begin + count]);
        begin := begin + count;
      }
      assert text[..begin] == text;
    }

    /** Everything up to the limit, delivered. */
    method Out() returns (delivered: string)
      requires Valid()
      modifies this, traits
      ensures Valid() && total == old(total)
      ensures delivered == out == Truncated(traits.limit, total)
    {
      Flush();
      assert total[..traits.flushed] == total;
      delivered := out;
    }

    method Count() returns (n: nat)
      requires Valid()
      ensures n == |total|
    {
      n := traits.flushed + size;
    }
  }

  lemma TakeMore(before: string, text: string, begin: nat, count: nat)
    requires begin + count <= |text|
    ensures before + text[..begin] + text[begin..begin + count] == before + text[..begin + count]
  {
  }

  method Copy(to: array<char>, at: nat, text: string)
    requires at + |text| <= to.Length
    modifies to
    ensures to[..] == old(to[..at]) + text + old(to[at + |text|..])
  {
    forall i | 0 <= i < |text| { to[at + i] := text[i]; }
  }

  // ----- the buffer that writes straight into memory -----

  class PointerBuffer {
    const traits: FixedBufferTraits
    const target: array<char>
    const data: array<char>
    var outAt: nat
    var direct: bool
    var size: nat
    ghost var total: string
    ghost var left: nat

    /** The target has room for as many elements as the limit says. */
    constructor (target: array<char>, limit: nat)
      requires limit <= target.Length
      ensures Valid() && Open() && fresh(traits) && fresh(data) && this.target == target
      ensures total == "" && traits.limit == limit && direct && size == 0
    {
      traits := new FixedBufferTraits(limit);
      data := new char[BUFFER_SIZE];
      this.target := target;
      outAt, direct, size, total, left := 0, true, 0, "", 0;
    }

    function Capacity(): nat
      reads this
    {
      if direct then traits.limit else BUFFER_SIZE
    }

    /**
     * While the buffer writes straight into the target all elements are there. When it has left the
     * target, the target holds what was delivered of the elements up to then.
     */
    ghost predicate Valid()
      reads this, traits, target, data
    {
      && data.Length == BUFFER_SIZE && data != target && traits.limit <= target.Length
      && size <= Capacity() && |total| == traits.flushed + size
      && (direct ==> traits.flushed == 0 && outAt == 0 && target[..size] == total)
      && (!direct ==> left <= traits.flushed && outAt == |Truncated(traits.limit, total[..left])| &&
                      target[..outAt] == Truncated(traits.limit, total[..left]))
    }

    /** The target was not left before the limit was reached. */
    ghost predicate Open()
      reads this
    {
      direct || left >= traits.limit
    }

    method Flush()
      requires Valid()
      modifies this, traits
      ensures Valid() && !direct && size == 0 && total == old(total)
      ensures left == if old(direct) then |total| else old(left)
    {
      var n := traits.Limit(size);
      if direct {
        assert n == size by { assert |""| == 0 && |total| == size; }
        outAt := outAt + n;
        direct := false;
        left := |total|;
        assert total[..left] == total;
      }
      size := 0;
    }

    method Grow()
      requires Valid()
      modifies this, traits
      ensures Valid() && total == old(total) && size < Capacity()
      ensures old(size < Capacity()) ==> size == old(size) && direct == old(direct)
      ensures old(!direct) ==> !direct && left == old(left)
      ensures old(Open()) ==> Open()
    {
      if size == Capacity() { Flush(); }
    }

    method Fill(piece: string)
      requires Valid() && size + |piece| <= Capacity()
      modifies this, target, data
      ensures Valid() && total == old(total) + piece && left == old(left) && direct == old(direct)
    {
      if direct {
        Copy(target, size, piece);
        assert target[..size + |piece|] == old(target[..size]) + piece;
      } else {
        Copy(data, size, piece);
        assert (total + piece)[..left] == total[..left];
      }
      size := size + |piece|;
      total := total + piece;
    }

    method PushBack(value: char)
      requires Valid()
      modifies this, traits, target, data
      ensures Valid() && total == old(total) + [value]
      ensures old(size < Capacity()) ==> direct == old(direct)
      ensures old(!direct) ==> !direct && left == old(left)
      ensures old(Open()) ==> Open()
    {
      if size + 1 > Capacity() { Grow(); }
      Fill([value]);
    }

    method Append(text: string)
      requires Valid()
      modifies this, traits, target, data
      ensures Valid() && total == old(total) + text
      ensures old(Open()) ==> Open()
    {
      hide Valid, Capacity;
      var begin := 0;
      ghost var before := total;
      ghost var open := Open();
      assert text[..0] == "" && before + "" == before;
      while begin != |text|
        invariant begin <= |text| && Valid() && total == before + text[..begin]
        invariant open ==> Open()
        decreases |text| - begin
      {
        var count := |text| - begin;
        SizeFits();
        if size + count > Capacity() { Grow(); }
        var free := Capacity() - size;
        if free < count { count := free; }
        TakeMore(before, text, begin, count);
        Fill(text[begin..begin + count]);
        begin := begin + count;
      }
      assert text[..begin] == text;
    }

    lemma SizeFits()
      requires Valid()
      ensures size <= Capacity()
    {
    }

    /** What was delivered: all up to the limit, if and only if the target was not left early. */
    method Out() returns (at: nat)
      requires Valid()
      modifies this, traits
      ensures Valid() && total == old(total) && at <= target.Length && left <= |total| && !direct
      ensures target[..at] == Truncated(traits.limit, total[..left])
      ensures left == if old(direct) then |total| else old(left)
      ensures target[..at] == Truncated(traits.limit, total) <==> left >= traits.limit || left == |total|
      ensures old(Open()) ==> left >= traits.limit || left == |total|
    {
      Flush();
      at := outAt;
      TruncatedPrefix(traits.limit, total, left);
    }

    method Count() returns (n: nat)
      requires Valid()
      ensures n == |total|
    {
      n := traits.flushed + size;
    }
  }

  // ----- counting and truncating without a buffer -----

  class CountingBuffer {
    const data: array<char>
    var size: nat
    var counted: nat
    ghost var total: string

    constructor ()
      ensures Valid() && fresh(data) && total == ""
    {
      data := new char[BUFFER_SIZE];
      size, counted, total := 0, 0, "";
    }

    ghost predicate Valid()
      reads this
    {
      data.Length == BUFFER_SIZE && size <= BUFFER_SIZE && |total| == counted + size
    }

    method Grow()
      requires Valid()
      modifies this
      ensures Valid() && total == old(total) && size < BUFFER_SIZE
      ensures old(size) < BUFFER_SIZE ==> size == old(size)
    {
      if size != BUFFER_SIZE { return; }
      counted := counted + size;
      size := 0;
    }

    method Append(text: string)
      requires Valid()
      modifies this, data
      ensures Valid() && total == old(total) + text
    {
      var begin := 0;
      ghost var before := total;
      assert text[..0] == "" && before + "" == before;
      while begin != |text|
        invariant begin <= |text| && Valid() && total == before + text[..begin]
        decreases |text| - begin
      {
        var count := |text| - begin;
        if size + count > BUFFER_SIZE { Grow(); }
        var free := BUFFER_SIZE - size;
        if free < count { count := free; }
        TakeMore(before, text, begin, count);
        Copy(data, size, text[begin..begin + count]);
        total := total + text[begin..begin + count];
        size := size + count;
        begin := begin + count;
      }
      assert text[..begin] == text;
    }

    method Count() returns (n: nat)
      requires Valid()
      ensures n == |total|
    {
      n := counted + size;
    }
  }

  class TruncatingIterator {
    const limit: nat
    var out: string
    var count: nat
    ghost var total: string

    constructor (limit: nat)
      ensures Valid() && this.limit == limit && total == ""
    {
      this.limit := limit;
      out, count, total := "", 0, "";
    }

    ghost predicate Valid()
      reads this
    {
      count == |total| && out == Truncated(limit, total)
    }

    lemma LetThrough()
      requires Valid()
      ensures count == |total| && out == Truncated(limit, total)
    {
    }

    method Assign(value: char)
      requires Valid()
      modifies this
      ensures Valid() && total == old(total) + [value]
    {
      TruncatedAppend(limit, total, [value]);
      if count < limit { out := out + [value]; }
      count := count + 1;
      total := total + [value];
    }

    method Append(text: string)
      requires Valid()
      modifies this
      ensures Valid() && total == old(total) + text
    {
      ghost var before := total;
      assert text[..0] == "" && before + "" == before;
      for i := 0 to |text|
        invariant Valid() && total == before + text[..i]
      {
        assert text[..i + 1] == text[..i] + [text[i]];
        Assign(text[i]);
        assert before + text[..i] + [text[i]] == before + text[..i + 1];
      }
      assert text[..|text|] == text;
    }
  }

  // ----- agreement -----

  function Flatten(pieces: seq<string>): string {
    if pieces == [] then "" else Flatten(pieces[..|pieces| - 1]) + pieces[|pieces| - 1]
  }

  lemma FlattenNone(pieces: seq<string>)
    requires |pieces| == 0
    ensures Flatten(pieces) == ""
  {
  }

  lemma FlattenMore(pieces: seq<string>, i: nat)
    requires i < |pieces|
    ensures Flatten(pieces[..i + 1]) == Flatten(pieces[..i]) + pieces[i]
  {
    assert pieces[..i + 1][..i] == pieces[..i];
  }

  method ThroughGeneric(limit: nat, pieces: seq<string>) returns (delivered: string, count: nat)
    ensures delivered == Truncated(limit, Flatten(pieces)) && count == |Flatten(pieces)|
  {
    hide *;
    var buffer := new IteratorBuffer(limit);
    FlattenNone(pieces[..0]);
    for i := 0 to |pieces|
      invariant buffer.Valid() && buffer.total == Flatten(pieces[..i])
      invariant fresh(buffer) && fresh(buffer.traits) && fresh(buffer.data) && buffer.traits.limit == limit
    {
      FlattenMore(pieces, i);
      buffer.Append(pieces[i]);
    }
    assert pieces[..|pieces|] == pieces;
    delivered := buffer.Out();
    count := buffer.Count();
  }

  method ThroughPointer(target: array<char>, limit: nat, pieces: seq<string>) returns (at: nat, count: nat)
    requires limit <= target.Length
    modifies target
    ensures at <= target.Length && target[..at] == Truncated(limit, Flatten(pieces)) && count == |Flatten(pieces)|
  {
    hide *;
    var buffer := new PointerBuffer(target, limit);
    FlattenNone(pieces[..0]);
    for i := 0 to |pieces|
      invariant buffer.Valid() && buffer.total == Flatten(pieces[..i])
      invariant buffer.Open() && fresh(buffer) && fresh(buffer.traits) && fresh(buffer.data)
      invariant buffer.target == target && buffer.traits.limit == limit
    {
      FlattenMore(pieces, i);
      buffer.Append(pieces[i]);
    }
    assert pieces[..|pieces|] == pieces;
    at := buffer.Out();
    count := buffer.Count();
  }

  method ThroughCounting(pieces: seq<string>) returns (count: nat)
    ensures count == |Flatten(pieces)|
  {
    hide *;
    var buffer := new CountingBuffer();
    FlattenNone(pieces[..0]);
    for i := 0 to |pieces|
      invariant buffer.Valid() && buffer.total == Flatten(pieces[..i])
      invariant fresh(buffer) && fresh(buffer.data)
    {
      FlattenMore(pieces, i);
      buffer.Append(pieces[i]);
    }
    assert pieces[..|pieces|] == pieces;
    count := buffer.Count();
  }

  method ThroughTruncating(limit: nat, pieces: seq<string>) returns (delivered: string, count: nat)
    ensures delivered == Truncated(limit, Flatten(pieces)) && count == |Flatten(pieces)|
  {
    hide *;
    var buffer := new TruncatingIterator(limit);
    FlattenNone(pieces[..0]);
    for i := 0 to |pieces|
      invariant buffer.Valid() && buffer.total == Flatten(pieces[..i])
      invariant fresh(buffer) && buffer.limit == limit
    {
      FlattenMore(pieces, i);
      buffer.Append(pieces[i]);
    }
    assert pieces[..|pieces|] == pieces;
    buffer.LetThrough();
    delivered, count := buffer.out, buffer.count;
  }

  /** A pointer buffer asked for its end too early keeps no more, whatever room there was. */
  method LostAfterOut(target: array<char>) returns (at: nat, count: nat)
    requires target.Length >= 2
    modifies target
    ensures at == 1 && target[0] == 'a' && count == 2
  {
    var buffer := new PointerBuffer(target, 2);
    buffer.PushBack('a');
    assert buffer.total == "" + "a" == "a";
    var early := buffer.Out();
    buffer.PushBack('b');
    assert buffer.total == "ab" && buffer.left == 1 && Truncated(2, "ab"[..1]) == "a";
    at := buffer.Out();
    count := buffer.Count();
  }
}
