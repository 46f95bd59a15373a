/** Buffered line input from a descriptor whose reads may be short, interrupted or failing, and output
    to it, whose writes may be so too. */
module Rio {
  import opened Text

  const RIO_BUFSIZE: nat := 8192

  /** The peer's end of a connection: the bytes still to be read, those sent to it, and how many
      signals will still interrupt a call. A reliable connection never fails. */
  class Socket {
    const reliable: bool
    var rest: string
    var sent: string
    var interrupts: nat

    constructor (reliable: bool, stream: string, interrupts: nat)
      ensures rest == stream && sent == "" && this.reliable == reliable
    {
      this.reliable := reliable;
      this.rest := stream;
      this.sent := "";
      this.interrupts := interrupts;
    }

    /** read(2): some of the bytes left, as many as it likes; 0 at the end only; or -1, for a signal
        (EINTR) or an error. */
    method Read(buf: array<char>) returns (cnt: int, eintr: bool)
      requires buf.Length > 0
      modifies this`rest, this`interrupts, buf
      ensures -1 <= cnt <= buf.Length && cnt <= |old(rest)|
      ensures cnt >= 0 ==> buf[..cnt] == old(rest)[..cnt] && rest == old(rest)[cnt..]
      ensures cnt >= 0 ==> interrupts == old(interrupts)
      ensures cnt == 0 ==> old(rest) == ""
      ensures cnt == -1 ==> rest == old(rest) && buf[..] == old(buf[..])
      ensures cnt == -1 && eintr ==> interrupts < old(interrupts)
      ensures cnt == -1 && !eintr ==> !reliable && interrupts == old(interrupts)
    {
      var signalled: bool, failing: bool := *, *;
      if signalled && interrupts > 0 {
        interrupts := interrupts - 1;
        return -1, true;
      }
      if failing && !reliable {
        return -1, false;
      }
      if rest == "" {
        return 0, false;
      }
      var most := if |rest| < buf.Length then |rest| else buf.Length;
      var chunk: int := *;
      cnt := if 0 < chunk <= most then chunk else most;
      forall i | 0 <= i < cnt {
        buf[i] := rest[i];
      }
      rest := rest[cnt..];
      eintr := false;
    }

    /** write(2): takes some of the bytes, at least one; or none, for a signal or an error. */
    method Write(text: string) returns (cnt: int, eintr: bool)
      requires text != ""
      modifies this`sent, this`interrupts
      ensures cnt == -1 || 0 < cnt <= |text|
      ensures cnt > 0 ==> sent == old(sent) + text[..cnt] && interrupts == old(interrupts)
      ensures cnt == -1 ==> sent == old(sent)
      ensures cnt == -1 && eintr ==> interrupts < old(interrupts)
      ensures cnt == -1 && !eintr ==> !reliable && interrupts == old(interrupts)
    {
      var signalled: bool, failing: bool := *, *;
      if signalled && interrupts > 0 {
        interrupts := interrupts - 1;
        return -1, true;
      }
      if failing && !reliable {
        return -1, false;
      }
      var chunk: int := *;
      cnt := if 0 < chunk <= |text| then chunk else |text|;
      sent := sent + text[..cnt];
      eintr := false;
    }
  }

  /** rio_writen: short and interrupted writes add up to the whole text, in order; after an error the
      peer has been sent a beginning of it. */
  method WriteN(fd: Socket, text: string) returns (ok: bool, ghost done: nat)
    modifies fd`sent, fd`interrupts
    ensures done <= |text| && fd.sent == old(fd.sent) + text[..done]
    ensures ok ==> done == |text|
    ensures !ok ==> !fd.reliable
  {
    var at := 0;
    done := 0;
    while at < |text|
      invariant 0 <= at <= |text| && done == at && fd.sent == old(fd.sent) + text[..at]
      decreases |text| - at, fd.interrupts
    {
      var cnt, eintr := fd.Write(text[at..]);
      if cnt < 0 {
        if !eintr {
          ok := false;
          return;
        }
      } else {
        assert text[..at + cnt] == text[..at] + text[at..][..cnt];
        at := at + cnt;
        done := at;
      }
    }
    ok := true;
  }

  lemma TakeFront(full: string, tail: string, k: nat)
    requires k <= |full|
    ensures (full + tail)[..k] == full[..k]
    ensures (full + tail)[k..] == full[k..] + tail
  {
  }

  /** The first `at` bytes of p have been taken as `got`, and `left` is what is left. */
  ghost predicate Taken(p: string, at: nat, got: string, left: string) {
    at <= |p| && got == p[..at] && left == p[at..]
  }

  ghost predicate PlainUpTo(p: string, at: nat) {
    at <= |p| && forall i :: 0 <= i < at ==> p[i] != '\n'
  }

  /** What a read error in the middle of a line costs: bytes before the newline, fewer than maxlen - 1. */
  ghost predicate PartOfLineLost(p: string, left: string, maxlen: nat) {
    exists k: nat :: k + 1 < maxlen && PlainUpTo(p, k) && left == p[k..]
  }

  lemma NothingTaken(p: string)
    ensures Taken(p, 0, "", p) && PlainUpTo(p, 0)
  {
  }

  lemma TakenMeans(p: string, at: nat, got: string, left: string)
    requires Taken(p, at, got, left)
    ensures at <= |p| && got == p[..at] && left == p[at..] && (left == "" <==> at == |p|)
  {
  }

  lemma OneMoreTaken(p: string, at: nat, got: string, left: string)
    requires Taken(p, at, got, left) && left != ""
    ensures at < |p| && left[0] == p[at] && Taken(p, at + 1, got + [left[0]], left[1..])
    ensures PlainUpTo(p, at) && left[0] != '\n' ==> PlainUpTo(p, at + 1)
  {
  }

  /** rio_t. */
  class Reader {
    const fd: Socket
    const buf: array<char>
    var cnt: int
    var ptr: nat

    ghost predicate Valid()
      reads this
    {
      buf.Length == RIO_BUFSIZE && (cnt > 0 ==> ptr + cnt <= RIO_BUFSIZE)
    }

    /** The bytes still to be delivered: those in the buffer, then those still to be read. */
    ghost function Pending(): string
      requires Valid()
      reads this, buf, fd
    {
      (if cnt > 0 then buf[ptr..ptr + cnt] else "") + fd.rest
    }

    /** rio_readinitb. */
    constructor (fd: Socket)
      ensures Valid() && this.fd == fd && fresh(buf) && Pending() == fd.rest
    {
      this.fd := fd;
      this.cnt := 0;
      this.ptr := 0;
      this.buf := new char[RIO_BUFSIZE](_ => '\0');
    }

    /** The refilling loop of rio_read: 1 when there are bytes in the buffer, 0 at the end, -1 on a
        read error. */
    method Refill() returns (rc: int)
      requires Valid()
      modifies this, buf, fd`rest, fd`interrupts
      ensures Valid() && Pending() == old(Pending())
      ensures (rc == 1 && cnt > 0) || (rc == 0 && Pending() == "") || (rc == -1 && !fd.reliable)
    {
      ghost var p := Pending();
      while cnt <= 0
        invariant Valid() && Pending() == p
        decreases fd.interrupts, -cnt
      {
        var eintr;
        cnt, eintr := fd.Read(buf);
        if cnt < 0 {
          if !eintr {
            return -1;
          }
        } else if cnt == 0 {
          return 0;
        } else {
          ptr := 0;
        }
      }
      rc := 1;
    }

    /** rio_read: the next bytes, at most n of them; 0 at the end only; -1 on a read error, which
        loses nothing. */
    method Read(usr: array<char>, n: nat) returns (k: int)
      requires Valid() && 0 < n <= usr.Length && usr != buf
      modifies this, buf, fd`rest, fd`interrupts, usr
      ensures Valid()
      ensures k == -1 || 0 <= k <= n
      ensures k >= 0 ==> k <= |old(Pending())| && Pending() == old(Pending())[k..]
      ensures k >= 0 ==> usr[..k] == old(Pending())[..k] && usr[k..] == old(usr[k..])
      ensures k == 0 ==> old(Pending()) == ""
      ensures k == -1 ==> !fd.reliable && Pending() == old(Pending()) && usr[..] == old(usr[..])
    {
      ghost var p, tail := Pending(), fd.rest;
      k := Refill();
      if k <= 0 {
        return;
      }
      tail := fd.rest;
      ghost var full := buf[ptr..ptr + cnt];
      assert p == full + tail;
      k := if cnt < n then cnt else n;
      forall i | 0 <= i < k {
        usr[i] := buf[ptr + i];
      }
      ptr := ptr + k;
      cnt := cnt - k;
      TakeFront(full, tail, k);
      assert usr[..k] == full[..k];
      assert cnt > 0 ==> buf[ptr..ptr + cnt] == full[k..];
      assert cnt == 0 ==> full[k..] == "";
    }

    /** `rio_read(rp, &c, 1)`. */
    method ReadByte() returns (rc: int, c: char)
      requires Valid()
      modifies this, buf, fd`rest, fd`interrupts
      ensures Valid() && (rc == 1 || rc == 0 || rc == -1)
      ensures rc == 1 ==> old(Pending()) != "" && c == old(Pending())[0] && Pending() == old(Pending())[1..]
      ensures rc == 0 ==> old(Pending()) == "" && Pending() == ""
      ensures rc == -1 ==> !fd.reliable && Pending() == old(Pending())
    {
      var cell := new char[1];
      rc := Read(cell, 1);
      assert rc == 1 ==> cell[0] == cell[..1][0];
      c := cell[0];
    }

    /** rio_readlineb: whatever the sizes of the reads, the piece an unbuffered reader would take. */
    method ReadLine(usr: array<char>, maxlen: nat) returns (k: int)
      requires Valid() && usr.Length > 0 && maxlen <= usr.Length && usr != buf
      modifies this, buf, fd`rest, fd`interrupts, usr
      ensures Valid() && k >= -1
      ensures k >= 0 ==> k == PieceLength(old(Pending()), if maxlen > 0 then maxlen - 1 else 0)
      ensures k >= 0 ==> Pending() == old(Pending())[k..] && usr[..k] == old(Pending())[..k]
      ensures k > 0 ==> usr[k] == '\0'
      ensures k == -1 ==> !fd.reliable && PartOfLineLost(old(Pending()), Pending(), maxlen)
    {
      hide PieceLength, Taken;
      ghost var p := Pending();
      ghost var limit := if maxlen > 0 then maxlen - 1 else 0;
      NothingTaken(p);
      var n := 1;
      var at := 0;
      while n < maxlen
        invariant Valid() && at == n - 1 && 0 <= at <= limit
        invariant Taken(p, at, usr[..at], Pending()) && PlainUpTo(p, at)
      {
        ghost var got, left := usr[..at], Pending();
        var rc, c := ReadByte();
        TakenMeans(p, at, got, left);
        if rc == 1 {
          OneMoreTaken(p, at, got, left);
          usr[at] := c;
          at := at + 1;
          assert usr[..at] == got + [c];
          if c == '\n' {
            n := n + 1;
            break;
          }
        } else if rc == 0 {
          if n == 1 {
            return 0;
          } else {
            break;
          }
        } else {
          assert PlainUpTo(p, at) && left == p[at..];
          return -1;
        }
        n := n + 1;
      }
      ghost var line := usr[..at];
      TakenMeans(p, at, line, Pending());
      usr[at] := '\0';
      assert usr[..at] == line;
      PieceUnique(p, limit, at);
      return n - 1;
    }
  }
}
