/** Buffered input that other processes may share (input.c): the shell reads ahead into a buffer and, before
    it lets anyone else read, seeks back over what it has not used. Binary streams that are not shared. */
module InputBuffer {
  import opened Wrappers

  type byte = x: int | 0 <= x < 256

  /** A file descriptor open on a file. */
  class Descriptor {
    const contents: seq<byte>
    var offset: nat

    constructor (contents: seq<byte>)
      ensures this.contents == contents && offset == 0
    {
      this.contents, offset := contents, 0;
    }

    /** zread: `grant` stands for what the system does: an error when it is negative, otherwise the most
        that it gives, and at least one byte if there is one. */
    method Read(buffer: array<byte>, n: nat, grant: int) returns (nr: int)
      requires 0 < n <= buffer.Length && offset <= |contents|
      modifies this`offset, buffer
      ensures nr == Granted(grant, n, |contents| - old(offset))
      ensures offset == old(offset) + (if nr > 0 then nr else 0) <= |contents|
      ensures nr > 0 ==> buffer[..nr] == contents[old(offset)..offset]
      ensures nr <= 0 ==> buffer[..] == old(buffer[..])
    {
      nr := Granted(grant, n, |contents| - offset);
      if nr > 0 {
        for k := 0 to nr
          modifies buffer
          invariant buffer[..k] == contents[offset..offset + k]
        {
          buffer[k] := contents[offset + k];
        }
        offset := offset + nr;
      }
    }

    /** lseek (fd, -n, SEEK_CUR) */
    method SeekBack(n: nat)
      requires n <= offset
      modifies this`offset
      ensures offset == old(offset) - n
    {
      offset := offset - n;
    }
  }

  function Granted(grant: int, n: nat, left: int): (nr: int)
    requires n > 0
    ensures nr <= n && (left >= 0 ==> nr <= left)
    ensures grant >= 0 && left > 0 ==> nr > 0
    ensures nr < 0 <==> grant < 0
  {
    if grant < 0 then -1
    else if left <= 0 then 0
    else if grant == 0 then 1
    else if grant < n && grant < left then grant
    else if n < left then n else left
  }

  // ---------- runs ----------

  /** A request: the next byte (with what the system grants), the byte just read put back, or a seek back. */
  datatype Request = Next(grant: int) | PutBack | Synchronize

  /** Where the shell is in the file, and the byte it has just read. */
  datatype Place = Place(position: nat, justRead: Option<byte>)

  /** One request on the file itself: `out` is the byte that it delivers. A byte can be missing only at the
      end of the file or after an error; what has just been read can always be put back. */
  predicate Allowed(contents: seq<byte>, p: Place, request: Request, out: Option<byte>, q: Place) {
    match request
    case Next(grant) =>
      if out.Some? then p.position < |contents| && out.value == contents[p.position] && q == Place(p.position + 1, out)
      else (grant < 0 || p.position >= |contents|) && q == Place(p.position, None)
    case PutBack =>
      out.None? && q == (if p.justRead.Some? && p.position > 0 then Place(p.position - 1, None)
          else Place(p.position, None))
    case Synchronize => out.None? && q == Place(p.position, None)
  }

  /** A run of requests that delivers outs, through the given places. */
  predicate Delivers(contents: seq<byte>, requests: seq<Request>, outs: seq<Option<byte>>, places: seq<Place>) {
    && |outs| == |requests| && |places| == |requests| + 1
    && forall k :: 0 <= k < |requests| ==> Allowed(contents, places[k], requests[k], outs[k], places[k + 1])
  }

  /** Reading without errors up to the end delivers the bytes of the file from where it begins, each once, in order. */
  lemma {:induction false} InOrder(contents: seq<byte>, requests: seq<Request>, outs: seq<Option<byte>>,
        places: seq<Place>, k: nat)
    requires Delivers(contents, requests, outs, places) && k <= |requests|
    requires forall j :: 0 <= j < k ==> requests[j].Next? && outs[j].Some?
    ensures places[k].position == places[0].position + k
    ensures forall j :: 0 <= j < k ==>
              places[0].position + j < |contents| && outs[j] == Some(contents[places[0].position + j])
    decreases k
  {
    if k > 0 {
      InOrder(contents, requests, outs, places, k - 1);
      assert Allowed(contents, places[k - 1], requests[k - 1], outs[k - 1], places[k]);
    }
  }

  /** A byte that has been put back is read again. */
  lemma ReadAgain(contents: seq<byte>, requests: seq<Request>, outs: seq<Option<byte>>, places: seq<Place>, k: nat)
    requires Delivers(contents, requests, outs, places) && k + 2 < |requests|
    requires requests[k].Next? && requests[k + 1].PutBack? && requests[k + 2].Next? && outs[k].Some?
    ensures outs[k + 2] == outs[k] || (requests[k + 2].grant < 0 && outs[k + 2] == None)
  {
    assert Allowed(contents, places[k], requests[k], outs[k], places[k + 1]);
    assert Allowed(contents, places[k + 1], requests[k + 1], outs[k + 1], places[k + 2]);
    assert Allowed(contents, places[k + 2], requests[k + 2], outs[k + 2], places[k + 3]);
  }

  lemma DeliversNothing(contents: seq<byte>, places: seq<Place>)
    requires |places| == 1
    ensures Delivers(contents, [], [], places)
  {
  }

  lemma DeliversMore(contents: seq<byte>, requests: seq<Request>, outs: seq<Option<byte>>, places: seq<Place>,
        request: Request, out: Option<byte>, q: Place)
    requires Delivers(contents, requests, outs, places) && Allowed(contents, places[|requests|], request, out, q)
    ensures Delivers(contents, requests + [request], outs + [out], places + [q])
  {
  }

  class Stream {
    const fd: Descriptor
    const b_buffer: array<byte>
    const b_size: nat
    var b_used: nat
    var b_inputp: nat
    var b_eof: bool
    var b_error: bool

    ghost predicate Valid()
      reads this, fd, b_buffer
    {
      && 0 < b_size == b_buffer.Length && b_inputp <= b_used <= b_size
      && b_used <= fd.offset <= |fd.contents|
    }

    /** The place in the file that the shell has come to. */
    ghost function Position(): nat
      requires Valid()
      reads this, fd, b_buffer
    {
      fd.offset - (b_used - b_inputp)
    }

    /** What will be read: the rest of the buffer, then the rest of the file. */
    ghost function Pending(): seq<byte>
      requires Valid()
      reads this, fd, b_buffer
    {
      b_buffer[b_inputp..b_used] + fd.contents[fd.offset..]
    }

    /** The buffer holds what the file holds. */
    ghost predicate Faithful()
      requires Valid()
      reads this, fd, b_buffer
    {
      b_buffer[..b_used] == fd.contents[fd.offset - b_used..fd.offset]
    }

    constructor (fd: Descriptor, size: nat)
      requires size > 0 && fd.offset <= |fd.contents|
      ensures Valid() && Faithful() && Position() == fd.offset && this.fd == fd && fresh(b_buffer) && b_size == size
    {
      this.fd, b_buffer, b_size := fd, new byte[size](_ => 0), size;
      b_used, b_inputp, b_eof, b_error := 0, 0, false, false;
    }

    /** A faithful buffer is invisible. */
    lemma PendingIsFile()
      requires Valid() && Faithful()
      ensures Pending() == fd.contents[Position()..]
    {
      var s := fd.contents;
      assert s[Position()..] == s[Position()..fd.offset] + s[fd.offset..];
      assert b_buffer[b_inputp..b_used] == b_buffer[..b_used][b_inputp..];
      assert s[Position()..fd.offset] == s[fd.offset - b_used..fd.offset][b_inputp..];
    }

    /** b_fill_buffer; None is EOF. */
    method FillBuffer(grant: int) returns (c: Option<byte>)
      requires Valid() && b_inputp == b_used
      modifies this, fd`offset, b_buffer
      ensures Valid() && Position() == old(Position()) + (if c.Some? then 1 else 0)
      ensures Faithful() && (c.Some? ==> b_inputp > 0)
      ensures if c.Some? then old(Pending()) == [c.value] + Pending() else Pending() == old(Pending())
      ensures c.None? ==> grant < 0 || old(Pending()) == []
      ensures grant < 0 ==> c.None?
      ensures b_error == (old(b_error) || grant < 0) && b_eof == (old(b_eof) || (grant >= 0 && c.None?))
    {
      var nr := fd.Read(b_buffer, b_size, grant);
      if nr <= 0 {
        b_used, b_inputp := 0, 0;
        b_buffer[0] := 0;
        if nr == 0 {
          b_eof := true;
        } else {
          b_error := true;
        }
        return None;
      }
      b_used, b_inputp := nr, 1;
      c := Some(b_buffer[0]);
      assert fd.contents[old(fd.offset)..] == fd.contents[old(fd.offset)..fd.offset] + fd.contents[fd.offset..];
      assert b_buffer[..nr] == [b_buffer[0]] + b_buffer[1..nr];
    }

    /** bufstream_getc: the next byte of what is pending. */
    method Getc(grant: int) returns (c: Option<byte>)
      requires Valid()
      modifies this, fd`offset, b_buffer
      ensures Valid() && Position() == old(Position()) + (if c.Some? then 1 else 0)
      ensures if c.Some? then old(Pending()) == [c.value] + Pending() else Pending() == old(Pending())
      ensures c.None? ==> grant < 0 || old(Pending()) == []
      ensures old(Faithful()) ==> Faithful()
      ensures c.Some? ==> b_inputp > 0
    {
      if b_inputp == b_used || b_used == 0 {
        c := FillBuffer(grant);
      } else {
        c := Some(b_buffer[b_inputp]);
        b_inputp := b_inputp + 1;
        assert b_buffer[old(b_inputp)..b_used] == [c.value] + b_buffer[b_inputp..b_used];
      }
    }

    /** bufstream_ungetc: puts c back in front of what is pending, if there is room. */
    method Ungetc(c: Option<byte>) returns (r: Option<byte>)
      requires Valid()
      modifies this`b_inputp, b_buffer
      ensures Valid() && r == if c.None? || old(b_inputp) == 0 then None else c
      ensures r.None? ==>
                Pending() == old(Pending()) && Position() == old(Position())
                && (old(Faithful()) ==> Faithful())
      ensures r.Some? ==> Pending() == [r.value] + old(Pending()) && Position() == old(Position()) - 1
      ensures r.Some? && old(Faithful()) && c.value == fd.contents[Position()] ==> Faithful()
    {
      if c.None? || b_inputp == 0 {
        return None;
      }
      ghost var held := b_buffer[..b_used];
      b_inputp := b_inputp - 1;
      b_buffer[b_inputp] := c.value;
      assert b_buffer[..b_used] == held[b_inputp := c.value];
      assert b_buffer[b_inputp..b_used] == [c.value] + held[old(b_inputp)..];
      r := c;
    }

    /** sync_buffered_stream: the file is left where the shell is; a byte that was put back and does not
        come from the file is lost. */
    method Sync()
      requires Valid()
      modifies this`b_used, this`b_inputp, fd`offset
      ensures Valid() && Faithful() && fd.offset == Position() == old(Position())
      ensures Pending() == fd.contents[Position()..]
      ensures old(Faithful()) ==> Pending() == old(Pending())
    {
      if old(Faithful()) {
        PendingIsFile();
      }
      var chars_left := b_used - b_inputp;
      if chars_left != 0 {
        fd.SeekBack(chars_left);
      }
      b_used, b_inputp := 0, 0;
    }

    /** Whatever the system grants, a run of requests delivers the bytes of the file in order; places tells
        where the shell is after each, and in the end. */
    method Replay(requests: seq<Request>) returns (outs: seq<Option<byte>>, ghost places: seq<Place>)
      requires Valid() && Faithful()
      modifies this, fd`offset, b_buffer
      ensures Valid() && Faithful() && Delivers(fd.contents, requests, outs, places)
      ensures places[0] == Place(old(Position()), None) && places[|requests|].position == Position()
    {
      hide Delivers, Allowed;
      outs, places := [], [Place(Position(), None)];
      var justRead: Option<byte> := None;
      DeliversNothing(fd.contents, places);
      for k := 0 to |requests|
        invariant Valid() && Faithful() && Delivers(fd.contents, requests[..k], outs, places)
        invariant |places| == k + 1 && places[0] == Place(old(Position()), None)
                  && places[k] == Place(Position(), justRead)
        invariant CanPutBack(justRead)
      {
        var request, out := requests[k], None;
        out, justRead := Serve(request, justRead);
        DeliversMore(fd.contents, requests[..k], outs, places, request, out, Place(Position(), justRead));
        assert requests[..k + 1] == requests[..k] + [request];
        outs, places := outs + [out], places + [Place(Position(), justRead)];
      }
      assert requests[..|requests|] == requests;
    }

    ghost predicate CanPutBack(justRead: Option<byte>)
      requires Valid()
      reads this, fd, b_buffer
    {
      justRead.Some? ==> b_inputp > 0 && Position() > 0 && justRead.value == fd.contents[Position() - 1]
    }

    method Serve(request: Request, justRead: Option<byte>) returns (out: Option<byte>, read: Option<byte>)
      requires Valid() && Faithful() && CanPutBack(justRead)
      modifies this, fd`offset, b_buffer
      ensures Valid() && Faithful() && CanPutBack(read)
      ensures Allowed(fd.contents, Place(old(Position()), justRead), request, out, Place(Position(), read))
    {
      PendingIsFile();
      out, read := None, None;
      match request
      case Next(grant) =>
        out := Getc(grant);
        read := out;
      case PutBack =>
        var r := Ungetc(justRead);
      case Synchronize => Sync();
    }
  }
}
