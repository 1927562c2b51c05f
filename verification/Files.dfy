/** The stdio streams that lib/scryptenc/scryptenc.c reads and writes. */
module Files {
  import opened Bytes
  import opened Mem

  /** What a file of this capacity holds after s has been written to it. */
  function Fill(capacity: nat, s: seq<byte>): (t: seq<byte>)
    ensures t <= s && |t| <= capacity
  {
    if |s| <= capacity then s else s[..capacity]
  }

  /** Once the file is full, what more was to be written makes no difference. */
  lemma FillStops(capacity: nat, s: seq<byte>, t: seq<byte>)
    requires |s| > capacity
    ensures Fill(capacity, s + t) == Fill(capacity, s)
  {
  }

  /**
   A stream whose reads deliver the octets up to limit in pieces of any size.  They then stop: at the end of the
   content, or, when the stream is broken, with a read error anywhere.  Writes fail exactly when the capacity is
   exceeded, and have then used it up.
   */
  class File {
    var content: seq<byte>
    var pos: nat
    var limit: nat
    const broken: bool
    const capacity: nat

    ghost predicate Fits()
      reads this
    {
      |content| <= capacity
    }

    ghost predicate Valid()
      reads this
    {
      pos <= limit <= |content| && (broken || limit == |content|)
    }

    /** What reads will still deliver. */
    ghost function Rest(): seq<byte>
      requires Valid()
      reads this
    {
      content[pos..limit]
    }

    constructor (content: seq<byte>, broken: bool, capacity: nat)
      ensures Valid() && this.content == content && pos == 0 && this.broken == broken && this.capacity == capacity
    {
      this.capacity := capacity;
      this.content := content;
      pos := 0;
      this.broken := broken;
      limit := |content|;
      new;
      Rewind();
    }

    /** fread(&buf[off], 1, n): at least one octet unless there is none, at most n. */
    method Read(buf: array<byte>, off: nat, n: nat) returns (k: nat)
      requires Valid() && off + n <= buf.Length
      modifies this`pos, buf
      ensures Valid() && k <= n && pos == old(pos) + k
      ensures k == 0 <==> n == 0 || old(pos) == limit
      ensures buf[..] == Put(old(buf[..]), off, content[old(pos)..pos])
    {
      k := 0;
      if n > 0 && pos < limit {
        k :| 1 <= k <= n && pos + k <= limit;
      }
      MemStore(buf, off, content[pos..pos + k]);
      pos := pos + k;
    }

    /** fread(&buf[off], n, 1): n octets, or failure. */
    method ReadItem(buf: array<byte>, off: nat, n: nat) returns (ok: bool)
      requires Valid() && off + n <= buf.Length
      modifies this`pos, buf
      ensures Valid() && (ok <==> old(pos) + n <= limit)
      ensures ok ==> pos == old(pos) + n && buf[..] == Put(old(buf[..]), off, content[old(pos)..pos])
    {
      ok := pos + n <= limit;
      if ok {
        MemStore(buf, off, content[pos..pos + n]);
        pos := pos + n;
      } else {
        pos := limit;
      }
    }

    /** fwrite at the end: all n octets, or as many as there is room for. */
    method Write(buf: array<byte>, off: nat, n: nat) returns (ok: bool)
      requires off + n <= buf.Length && Fits()
      modifies this`content
      ensures Fits() && content == Fill(capacity, old(content) + buf[off..off + n])
      ensures ok <==> |old(content)| + n <= capacity
    {
      ok := |content| + n <= capacity;
      var k := if ok then n else capacity - |content|;
      assert (content + buf[off..off + n])[..|content| + k] == content + buf[off..off + k];
      content := content + buf[off..off + k];
    }

    /** fseek to the start; a broken stream may now stop elsewhere. */
    method Rewind()
      modifies this`pos, this`limit
      ensures Valid() && pos == 0
    {
      pos := 0;
      limit := |content|;
      if broken {
        var stop: nat :| stop <= |content|;
        limit := stop;
      }
    }
  }
}
