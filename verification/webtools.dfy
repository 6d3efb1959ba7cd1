/** Webtools frames (proxy/Frames.go:42-124). */
module WebtoolsFrames {
  import opened Wrappers
  import opened Bytes

  const SEPARATOR: byte := 59
  const ZERO: byte := 48
  const PLUS: byte := 43
  const MINUS: byte := 45
  /** Integers of the program have 64 bits. */
  const INT_LIMIT := 0x8000_0000_0000_0000

  datatype Frame = Frame(operation: byte, id: seq<byte>, data: seq<byte>)

  /** No list and an empty one are the same; a slice out of range stops the program. */
  datatype Outcome = Frames(frames: seq<Frame>) | Panic

  // ----- decimal numbers -----

  function Itoa(n: nat): (r: seq<byte>)
    ensures r != []
  {
    if n < 10 then [ZERO + n] else Itoa(n / 10) + [ZERO + n % 10]
  }

  predicate AreDigits(s: seq<byte>) {
    forall i :: 0 <= i < |s| ==> ZERO <= s[i] < ZERO + 10
  }

  function Decimal(s: seq<byte>): (d: int)
    requires AreDigits(s)
    ensures d >= 0
  {
    if s == [] then 0 else 10 * Decimal(s[..|s| - 1]) + (s[|s| - 1] - ZERO)
  }

  /** strconv.Atoi: an optional sign and at least one digit, in the range of a 64-bit integer. */
  function Atoi(s: seq<byte>): Option<int> {
    var signed := s != [] && (s[0] == PLUS || s[0] == MINUS);
    var digits := if signed then s[1..] else s;
    if digits == [] || !AreDigits(digits) then None
    else
      var value: int := if signed && s[0] == MINUS then -Decimal(digits) else Decimal(digits);
      if -INT_LIMIT <= value < INT_LIMIT then Some(value) else None
  }

  lemma {:induction false} AtoiOfItoa(n: nat)
    ensures AreDigits(Itoa(n)) && Decimal(Itoa(n)) == n
    ensures n < INT_LIMIT ==> Atoi(Itoa(n)) == Some(n)
  {
    if n >= 10 {
      AtoiOfItoa(n / 10);
      var r := Itoa(n);
      assert r[..|r| - 1] == Itoa(n / 10);
      assert r[0] == Itoa(n / 10)[0];
    } else {
      assert Itoa(n)[..0] == [];
    }
  }

  /** 64-bit addition wraps around. */
  function Int64(n: int): int {
    (n + INT_LIMIT) % (2 * INT_LIMIT) - INT_LIMIT
  }

  // ----- packing and unpacking -----

  function Pack(f: Frame): seq<byte> {
    [f.operation, SEPARATOR] + f.id + [SEPARATOR] + Itoa(|f.data|) + [SEPARATOR] + f.data
  }

  method PackWebtoolsFrame(operation: byte, id: seq<byte>, data: seq<byte>) returns (frame: seq<byte>)
    ensures frame == Pack(Frame(operation, id, data))
  {
    frame := [];
    frame := frame + [operation];
    frame := frame + [SEPARATOR];
    frame := frame + id;
    frame := frame + [SEPARATOR];
    frame := frame + Itoa(|data|);
    frame := frame + [SEPARATOR];
    frame := frame + data;
  }

  /** Where the next separator is, from index `i` on; the length if there is none. */
  function NextSeparator(s: seq<byte>, i: nat): (j: nat)
    requires i <= |s|
    ensures i <= j <= |s| && SEPARATOR !in s[i..j] && (j < |s| ==> s[j] == SEPARATOR)
    decreases |s| - i
  {
    if i == |s| || s[i] == SEPARATOR then i else NextSeparator(s, i + 1)
  }

  /** The length field counts from one, except that zero and negative numbers are taken as they are. */
  function LastIndex(length: int): int {
    if length > 0 then length - 1 else length
  }

  /** What is unpacked once both separators are found: the identifier ends at `e`, the length field at `k`. */
  function UnpackBody(frame: seq<byte>, e: nat, k: nat): Outcome
    requires 2 <= e < k < |frame|
    decreases |frame|, 0
  {
    match Atoi(frame[e + 1..k])
    case None => Frames([])
    case Some(length) =>
      var n := LastIndex(length);
      if |frame| <= Int64(Int64(k + n) + 1) then Frames([Frame(frame[0], frame[2..e], [])])
      else
        var end := Int64(k + 2 + n);
        if !(k + 1 <= end <= |frame|) then Panic
        else
          match Unpack(frame[end..])
          case Panic => Panic
          case Frames(rest) => Frames([Frame(frame[0], frame[2..e], frame[k + 1..end])] + rest)
  }

  function Unpack(frame: seq<byte>): Outcome
    decreases |frame|, 1
  {
    if |frame| < 2 || frame[1] != SEPARATOR then Frames([])
    else
      var e := NextSeparator(frame, 2);
      if e == |frame| then Frames([Frame(frame[0], [], [])])
      else
        var k := NextSeparator(frame, e + 1);
        if k == |frame| then Frames([Frame(frame[0], frame[2..e], [])])
        else UnpackBody(frame, e, k)
  }

  method UnpackWebtoolsFrame(frame: seq<byte>) returns (outcome: Outcome)
    ensures outcome == Unpack(frame)
    decreases |frame|, 1
  {
    hide UnpackBody;
    if |frame| == 0 {
      return Frames([]);
    }
    if |frame| < 2 {
      return Frames([]);
    }
    var operation := frame[0];
    if frame[1] != SEPARATOR {
      return Frames([]);
    }
    var id, idEndIndex := [], -1;
    for i := 2 to |frame|
      invariant -1 <= idEndIndex < i
      invariant idEndIndex == -1 ==> id == [] && NextSeparator(frame, 2) == NextSeparator(frame, i)
      invariant idEndIndex != -1 ==>
        && 2 <= idEndIndex < i && idEndIndex == NextSeparator(frame, 2) && id == frame[2..idEndIndex]
        && NextSeparator(frame, idEndIndex + 1) == NextSeparator(frame, i)
    {
      if frame[i] == SEPARATOR {
        if idEndIndex == -1 {
          id := frame[2..i];
          idEndIndex := i;
        } else {
          outcome := UnpackData(frame, operation, id, idEndIndex, i);
          return;
        }
      }
    }
    return Frames([Frame(operation, id, [])]);
  }

  /** The branch of the loop that has found the second separator at index `i`. */
  method UnpackData(frame: seq<byte>, operation: byte, id: seq<byte>, idEndIndex: nat, i: nat) returns (outcome: Outcome)
    requires 2 <= idEndIndex < i < |frame| && operation == frame[0] && id == frame[2..idEndIndex]
    ensures outcome == UnpackBody(frame, idEndIndex, i)
    decreases |frame|, 0
  {
    hide Atoi, Unpack;
    var lenOfData := Atoi(frame[idEndIndex + 1..i]);
    if lenOfData.None? {
      return Frames([]);
    }
    var n := LastIndex(lenOfData.value);
    var data, subframes := [], [];
    if |frame| > Int64(Int64(i + n) + 1) {
      var end := Int64(i + 2 + n);
      if !(i + 1 <= end <= |frame|) {
        return Panic;
      }
      data := frame[i + 1..end];
      var rest := UnpackWebtoolsFrame(frame[end..]);
      if rest.Panic? {
        return Panic;
      }
      subframes := rest.frames;
    }
    return Frames([Frame(operation, id, data)] + subframes);
  }

  // ----- round trip -----

  function PackAll(fs: seq<Frame>): seq<byte> {
    if fs == [] then [] else Pack(fs[0]) + PackAll(fs[1..])
  }

  /** What the receiver can take apart again. */
  predicate Separable(fs: seq<Frame>) {
    && (forall i :: 0 <= i < |fs| ==> SEPARATOR !in fs[i].id)
    && (forall i :: 0 <= i < |fs| - 1 ==> fs[i].data != [])
  }

  /** The first separator ends what stands before it. */
  lemma {:induction false} SeparatorAfter(s: seq<byte>, i: nat, j: nat)
    requires i <= j < |s| && s[j] == SEPARATOR
    ensures NextSeparator(s, i) <= j
    ensures SEPARATOR !in s[i..j] ==> NextSeparator(s, i) == j
    decreases j - i
  {
    if i < j {
      assert s[i..j] == [s[i]] + s[i + 1..j];
      if s[i] != SEPARATOR {
        SeparatorAfter(s, i + 1, j);
      }
    }
  }

  lemma DigitsHaveNoSeparator(s: seq<byte>)
    requires AreDigits(s)
    ensures SEPARATOR !in s
  {
  }

  /** Where the parts of a packed frame lie, with anything behind it. */
  lemma PackedParts(f: Frame, rest: seq<byte>)
    ensures var s := Pack(f) + rest; var e := 2 + |f.id|; var k := e + 1 + |Itoa(|f.data|)|;
            && |s| == k + 1 + |f.data| + |rest| && s[0] == f.operation && s[1] == SEPARATOR
            && s[e] == SEPARATOR && s[k] == SEPARATOR
            && s[2..e] == f.id && s[e + 1..k] == Itoa(|f.data|)
            && s[k + 1..] == f.data + rest
  {
    hide Itoa, Pack;
    PackSplits(f, rest);
    FrontParts(f.operation, f.id, Itoa(|f.data|) + ([SEPARATOR] + (f.data + rest)));
    BackParts(Pack(f) + rest, 3 + |f.id|, Itoa(|f.data|), f.data + rest);
  }

  lemma PackSplits(f: Frame, rest: seq<byte>)
    ensures Pack(f) + rest
         == ([f.operation, SEPARATOR] + f.id + [SEPARATOR]) + (Itoa(|f.data|) + ([SEPARATOR] + (f.data + rest)))
  {
    hide Itoa;
  }

  lemma FrontParts(operation: byte, id: seq<byte>, behind: seq<byte>)
    ensures var s := ([operation, SEPARATOR] + id + [SEPARATOR]) + behind; var e := 2 + |id|;
            && |s| == e + 1 + |behind| && s[0] == operation && s[1] == SEPARATOR && s[e] == SEPARATOR
            && s[2..e] == id && s[e + 1..] == behind
  {
  }

  lemma BackParts(s: seq<byte>, i: nat, digits: seq<byte>, tail: seq<byte>)
    requires i <= |s| && s[i..] == digits + ([SEPARATOR] + tail)
    ensures var k := i + |digits|;
            |s| == k + 1 + |tail| && s[i..k] == digits && s[k] == SEPARATOR && s[k + 1..] == tail
  {
    var u := s[i..];
    assert s[i..i + |digits|] == u[..|digits|] && s[i + |digits|] == u[|digits|] && s[i + |digits| + 1..] == u[|digits| + 1..];
  }

  function Prepend(f: Frame, outcome: Outcome): Outcome {
    if outcome.Panic? then Panic else Frames([f] + outcome.frames)
  }

  /** A length field that holds `length`: that many bytes are data, but never none if anything follows. */
  lemma BodyByLength(s: seq<byte>, e: nat, k: nat, length: nat)
    requires 2 <= e < k < |s| < INT_LIMIT && Atoi(s[e + 1..k]) == Some(length) && k + length < INT_LIMIT
    ensures var size := if length == 0 then 1 else length;
            UnpackBody(s, e, k) ==
            if |s| <= k + size then Frames([Frame(s[0], s[2..e], [])])
            else Prepend(Frame(s[0], s[2..e], s[k + 1..k + 1 + size]), Unpack(s[k + 1 + size..]))
  {
    hide Atoi, Unpack;
  }

  /** A packed frame whose identifier has no separator is found at the front, and its data if they are not empty. */
  lemma UnpackPacked(f: Frame, rest: seq<byte>)
    requires |Pack(f) + rest| < INT_LIMIT && SEPARATOR !in f.id
    ensures f.data != [] ==> Unpack(Pack(f) + rest) == Prepend(f, Unpack(rest))
    ensures f.data == [] && rest == [] ==> Unpack(Pack(f) + rest) == Frames([f])
    ensures f.data == [] && rest != [] ==>
              Unpack(Pack(f) + rest) == Prepend(Frame(f.operation, f.id, rest[..1]), Unpack(rest[1..]))
  {
    hide Unpack, Pack, Atoi, Itoa, UnpackBody, Prepend;
    var s := Pack(f) + rest;
    var e := 2 + |f.id|;
    var k := e + 1 + |Itoa(|f.data|)|;
    PackedFound(f, rest);
    PackedParts(f, rest);
    BodyByLength(s, e, k, |f.data|);
    Behind(s, k + 1, f.data, rest);
  }

  /** Both separators of a packed frame are found, and its length between them. */
  lemma PackedFound(f: Frame, rest: seq<byte>)
    requires |Pack(f) + rest| < INT_LIMIT && SEPARATOR !in f.id
    ensures var s := Pack(f) + rest; var e := 2 + |f.id|; var k := e + 1 + |Itoa(|f.data|)|;
            k < |s| && Atoi(s[e + 1..k]) == Some(|f.data|) && Unpack(s) == UnpackBody(s, e, k)
  {
    hide Unpack, Pack, Atoi, Itoa, UnpackBody, NextSeparator;
    var s := Pack(f) + rest;
    var digits := Itoa(|f.data|);
    var e := 2 + |f.id|;
    var k := e + 1 + |digits|;
    PackedParts(f, rest);
    AtoiOfItoa(|f.data|);
    DigitsHaveNoSeparator(digits);
    SeparatorAfter(s, 2, e);
    SeparatorAfter(s, e + 1, k);
    UnpackFound(s, e, k);
  }

  lemma Behind(s: seq<byte>, k: nat, data: seq<byte>, rest: seq<byte>)
    requires k <= |s| && s[k..] == data + rest
    ensures s[k..k + |data|] == data && s[k + |data|..] == rest
    ensures data == [] && rest != [] ==> s[k..k + 1] == rest[..1] && s[k + 1..] == rest[1..]
  {
    assert s[k..k + |data|] == s[k..][..|data|] && s[k + |data|..] == s[k..][|data|..];
    if data == [] && rest != [] {
      assert s[k..k + 1] == s[k..][..1] && s[k + 1..] == s[k..][1..];
    }
  }

  lemma UnpackFound(s: seq<byte>, e: nat, k: nat)
    requires 2 <= e < k < |s| && s[1] == SEPARATOR
    requires NextSeparator(s, 2) == e && NextSeparator(s, e + 1) == k
    ensures Unpack(s) == UnpackBody(s, e, k)
  {
  }

  /** An identifier that is unpacked never contains a separator. */
  lemma UnpackedIdentifier(s: seq<byte>)
    requires Unpack(s).Frames? && Unpack(s).frames != []
    ensures SEPARATOR !in Unpack(s).frames[0].id
  {
  }

  /** Unpacking packed frames that arrive together returns just those frames, exactly when they are separable. */
  lemma {:induction false} UnpackAllRoundTrip(fs: seq<Frame>)
    requires |PackAll(fs)| < INT_LIMIT
    ensures Unpack(PackAll(fs)) == Frames(fs) <==> Separable(fs)
    decreases |fs|
  {
    hide Unpack, Pack;
    if fs == [] {
      UnpackNothing();
    } else {
      var f, more := fs[0], fs[1..];
      assert fs == [f] + more;
      if SEPARATOR in f.id {
        var u := Unpack(PackAll(fs));
        if u == Frames(fs) {
          UnpackedIdentifier(PackAll(fs));
          assert false;
        }
      } else {
        UnpackPacked(f, PackAll(more));
        UnpackAllRoundTrip(more);
        SeparableMore(f, more);
        PackedIsNotEmpty(more);
        if more == [] {
          assert PackAll(more) == [];
          UnpackNothing();
          assert [f] + [] == [f];
        }
      }
    }
  }

  lemma UnpackNothing()
    ensures Unpack([]) == Frames([])
  {
  }

  lemma PackedIsNotEmpty(fs: seq<Frame>)
    ensures fs != [] ==> PackAll(fs) != []
  {
  }

  lemma SeparableMore(f: Frame, more: seq<Frame>)
    requires SEPARATOR !in f.id
    ensures Separable([f] + more) <==> (more == [] || f.data != []) && Separable(more)
  {
    var fs := [f] + more;
    assert forall i :: 0 <= i < |more| ==> more[i] == fs[i + 1];
    if Separable(fs) {
      assert more != [] ==> fs[0].data != [];
      forall i | 0 <= i < |more| - 1
        ensures more[i].data != []
      {
        assert fs[i + 1].data != [];
      }
    }
    if (more == [] || f.data != []) && Separable(more) {
      forall i | 0 <= i < |fs|
        ensures SEPARATOR !in fs[i].id
      {
        assert i > 0 ==> fs[i] == more[i - 1];
      }
      forall i | 0 <= i < |fs| - 1
        ensures fs[i].data != []
      {
        assert i > 0 ==> fs[i] == more[i - 1];
      }
    }
  }
}
