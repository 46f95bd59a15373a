/** The growing reply buffer of one request. */
module Response {
  import opened Text
  import opened Stock

  const SIZE_MAX: int := 0xffff_ffff_ffff_ffff

  /** size_t: the verifier checks that no sum or product of sizes wraps around. */
  newtype Size = n: int | 0 <= n <= SIZE_MAX

  method Realloc(old_: array<char>, size: Size) returns (fresh_: array<char>)
    requires old_.Length <= size as int
    ensures fresh(fresh_) && fresh_.Length == size as int
    ensures fresh_[..old_.Length] == old_[..]
  {
    fresh_ := new char[size as int](_ => '\0');
    forall i | 0 <= i < old_.Length {
      fresh_[i] := old_[i];
    }
  }

  /** vsnprintf at data + at with room for `room` bytes: prints as much as fits before a NUL, and
      returns the length of the whole text. */
  method Vsnprintf(data: array<char>, at: Size, room: Size, text: string) returns (written: int)
    requires 0 < room && at as int + room as int <= data.Length
    modifies data
    ensures written == |text|
    ensures var k := if |text| < room as int then |text| else room as int - 1;
      data[..] == old(data[..at as int]) + text[..k] + ['\0'] + old(data[at as int + k + 1..])
  {
    var k := if |text| < room as int then |text| else room as int - 1;
    forall i | 0 <= i < k {
      data[at as int + i] := text[i];
    }
    data[at as int + k] := '\0';
    written := |text|;
  }

  class Builder {
    var data: array<char>
    var len: Size
    var cap: Size

    ghost predicate Valid()
      reads this
    {
      len < cap && cap as int == data.Length
    }

    ghost predicate Terminated()
      requires Valid()
      reads this, data
    {
      data[len as int] == '\0'
    }

    function Text(): string
      requires Valid()
      reads this, data
    {
      data[..len as int]
    }

    /** response_init. */
    constructor ()
      ensures Valid() && Terminated() && fresh(data)
      ensures Text() == ""
    {
      cap := MAXLINE as Size;
      len := 0;
      data := new char[MAXLINE](_ => '\0');
    }

    /** What handle_client does before it writes an error reply. */
    method Reset()
      requires Valid()
      modifies this`len, data
      ensures Valid() && Terminated() && Text() == "" && data == old(data) && cap == old(cap)
    {
      len := 0;
      data[0] := '\0';
    }

    method EnsureCapacity(additional: Size) returns (s: Status)
      requires Valid()
      modifies this`data, this`cap
      ensures Valid() && (data == old(data) || fresh(data))
      ensures s == Ok <==> len as int + additional as int + 1 <= SIZE_MAX
      ensures s == Ok ==> len as int + additional as int < cap as int
      ensures s != Ok ==> s == Internal && data == old(data) && cap == old(cap)
      ensures old(cap) <= cap && data[..old(cap) as int] == old(data[..])
    {
      if additional as int > SIZE_MAX - len as int - 1 {
        return Internal;
      }
      var needed: Size := len + additional + 1;
      if needed <= cap {
        return Ok;
      }
      var newCap := cap;
      while newCap < needed
        invariant 0 < cap <= newCap
        decreases needed as int - newCap as int
      {
        if newCap > SIZE_MAX as Size / 2 {
          newCap := needed;
          break;
        }
        newCap := newCap * 2;
      }
      data := Realloc(data, newCap);
      cap := newCap;
      return Ok;
    }

    /** Appends a C string. */
    method Append(text: string) returns (s: Status)
      requires Valid() && '\0' !in text && |text| <= SIZE_MAX
      modifies this, data
      ensures Valid() && (data == old(data) || fresh(data))
      ensures s == Ok <==> |old(Text())| + |text| + 1 <= SIZE_MAX
      ensures s == Ok ==> Terminated() && Text() == old(Text()) + text
      ensures s != Ok ==> s == Internal && Text() == old(Text())
    {
      var textLen := |text| as Size;
      s := EnsureCapacity(textLen);
      if s != Ok {
        return;
      }
      var at := len as int;
      forall i | 0 <= i < |text| {
        data[at + i] := text[i];
      }
      data[at + |text|] := '\0';
      len := len + textLen;
    }

    /** Appends the text that a format produces; `text` is what an unbounded sprintf would print. */
    method AppendF(text: string) returns (s: Status)
      requires Valid() && '\0' !in text && |text| <= INT_MAX
      modifies this, data
      ensures Valid() && (data == old(data) || fresh(data))
      ensures s == Ok <==> |old(Text())| + |text| + 1 <= SIZE_MAX
      ensures s == Ok ==> Terminated() && Text() == old(Text()) + text
      ensures s != Ok ==> s == Internal && Text() == old(Text())
    {
      var written := Vsnprintf(data, len, cap - len, text);
      if written as Size >= cap - len {
        s := EnsureCapacity(written as Size);
        if s != Ok {
          return;
        }
        assert data[..len as int] == old(data[..len as int]);
        written := Vsnprintf(data, len, cap - len, text);
        assert written as int < cap as int - len as int;
      }
      len := len + written as Size;
      return Ok;
    }
  }

  /** A literal or a formatted text. */
  method AppendEither(b: Builder, text: string) returns (s: Status)
    requires b.Valid() && '\0' !in text && |text| <= INT_MAX
    modifies b, b.data
    ensures b.Valid() && (b.data == old(b.data) || fresh(b.data))
    ensures s == Ok <==> |old(b.Text())| + |text| + 1 <= SIZE_MAX
    ensures s == Ok ==> b.Terminated() && b.Text() == old(b.Text()) + text
  {
    var formatted: bool := *;
    if formatted {
      s := b.AppendF(text);
    } else {
      s := b.Append(text);
    }
  }

  lemma {:induction false} ConcatGrows(texts: seq<string>, k: nat)
    requires k <= |texts|
    ensures |Concat(texts[..k])| <= |Concat(texts)|
  {
    if k > 0 {
      assert texts[..k][1..] == texts[1..][..k - 1];
      ConcatGrows(texts[1..], k - 1);
    }
  }

  lemma ConcatStep(texts: seq<string>, i: nat)
    requires i < |texts|
    ensures Concat(texts[..i + 1]) == Concat(texts[..i]) + texts[i]
    ensures |Concat(texts[..i])| + |texts[i]| <= |Concat(texts)|
  {
    assert texts[..i + 1] == texts[..i] + [texts[i]];
    ConcatAppend(texts[..i], texts[i]);
    ConcatGrows(texts, i + 1);
  }

  /** Any run of appends: the buffer holds the concatenation, in the order of the appends, however
      often it grew on the way. */
  method AppendAll(b: Builder, texts: seq<string>) returns (s: Status)
    requires b.Valid()
    requires forall t :: t in texts ==> '\0' !in t && |t| <= INT_MAX
    modifies b, b.data
    ensures b.Valid()
    ensures s == Ok <==> |old(b.Text())| + |Concat(texts)| + 1 <= SIZE_MAX
    ensures s == Ok && texts != [] ==> b.Terminated()
    ensures s == Ok ==> b.Text() == old(b.Text()) + Concat(texts)
  {
    assert texts[..0] == [] && Concat([]) == "";
    hide Concat;
    s := Ok;
    var i := 0;
    ghost var start, done := b.Text(), "";
    while i < |texts|
      invariant 0 <= i <= |texts| && b.Valid() && (b.data == old(b.data) || fresh(b.data))
      invariant done == Concat(texts[..i]) && b.Text() == start + done
      invariant s == Ok && (i > 0 ==> b.Terminated())
    {
      ConcatStep(texts, i);
      s := AppendEither(b, texts[i]);
      if s != Ok {
        return;
      }
      done := done + texts[i];
      i := i + 1;
    }
    assert texts[..i] == texts;
    assert |b.Text()| < SIZE_MAX;
  }
}
