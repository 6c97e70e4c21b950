/** The growing output buffer of `hpack_encode`: what its grow-and-retry loops write, and when that is
    the wire form. */
module HpackEmission {
  import opened BitStrings
  import opened HpackInteger
  import opened HpackString
  import opened HpackCodec

  /** The capacity the source starts with. */
  const INITIAL_CAPACITY: nat := 1024

  ghost predicate Encodable(p: Piece) {
    p.IntegerPiece? ==> 1 <= p.n <= 8 && p.v < WORD
  }

  ghost predicate AllEncodable(ps: seq<Piece>) {
    forall p :: p in ps ==> Encodable(p)
  }

  /** The octets one piece adds and the capacity afterwards. */
  ghost function EmitPiece(p: Piece, used: nat, capacity: nat): (r: (seq<Octet>, nat))
    requires used <= capacity && capacity >= INITIAL_CAPACITY && Encodable(p)
    ensures used + |r.0| <= r.1 && r.1 >= INITIAL_CAPACITY
    decreases |PieceOctets(p)| + 1 - (capacity - used)
  {
    hide IntegerOctets, StringOctets;
    match p
    case IntegerPiece(prefix, n, v) =>
      (match WriteInteger(prefix, n, v, capacity - used)
       case Wrote(octets) => (octets, capacity)
       case NoRoom => EmitPiece(p, used, 2 * capacity))
    case StringPiece(text) =>
      (match WriteString(text, true, capacity - used)
       case WroteString(octets) => (octets, capacity)
       case NoRoomForString => EmitPiece(p, used, 2 * capacity))
  }

  /** The source's boundary case: an integer equal to its mask with one octet of room. */
  ghost predicate AtBoundary(p: Piece, used: nat, capacity: nat)
    requires used <= capacity
  {
    p.IntegerPiece? && capacity - used == 1 && p.v == Mask(p.n)
  }

  lemma {:induction false} PieceEmission(p: Piece, used: nat, capacity: nat)
    requires used <= capacity && capacity >= INITIAL_CAPACITY && Encodable(p)
    ensures |EmitPiece(p, used, capacity).0| <= |PieceOctets(p)|
    ensures if AtBoundary(p, used, capacity) then |EmitPiece(p, used, capacity).0| < |PieceOctets(p)|
            else EmitPiece(p, used, capacity).0 == PieceOctets(p)
    decreases |PieceOctets(p)| + 1 - (capacity - used)
  {
    match p
    case IntegerPiece(prefix, n, v) =>
      hide IntegerOctets, Mask;
      if WriteInteger(prefix, n, v, capacity - used).Wrote? {
        WrittenIntegerComplete(prefix, n, v, capacity - used);
        BoundaryIsShort(prefix, n, v);
      } else {
        EnoughRoom(prefix, n, v, 2 * capacity - used);
      }
    case StringPiece(text) =>
      hide StringOctets;
      if WriteString(text, true, capacity - used).NoRoomForString? {
        PieceEmission(p, used, 2 * capacity);
      }
  }

  /** The buffer is doubled as long as a piece does not fit. */
  lemma {:induction false} CapacityDoubles(p: Piece, used: nat, capacity: nat) returns (k: nat)
    requires used <= capacity && capacity >= INITIAL_CAPACITY && Encodable(p)
    ensures EmitPiece(p, used, capacity).1 == capacity * Pow2(k)
    ensures k > 0 ==> used + |PieceOctets(p)| >= capacity * Pow2(k - 1)
    decreases |PieceOctets(p)| + 1 - (capacity - used)
  {
    hide IntegerOctets, StringOctets, Mask;
    var fits := match p
                case IntegerPiece(prefix, n, v) => WriteInteger(prefix, n, v, capacity - used).Wrote?
                case StringPiece(text) => WriteString(text, true, capacity - used).WroteString?;
    if fits {
      k := 0;
    } else {
      var j := CapacityDoubles(p, used, 2 * capacity);
      k := j + 1;
      TwiceThePower(capacity, j);
    }
  }

  lemma TwiceThePower(capacity: nat, j: nat)
    ensures 2 * capacity * Pow2(j) == capacity * Pow2(j + 1)
    ensures j > 0 ==> 2 * capacity * Pow2(j - 1) == capacity * Pow2(j)
  {
  }

  lemma BoundaryIsShort(prefix: Octet, n: nat, v: nat)
    requires n <= 8
    ensures v == Mask(n) ==> |IntegerOctets(prefix, n, v)| == 2
  {
  }

  ghost function EmitPieces(ps: seq<Piece>, used: nat, capacity: nat): (r: (seq<Octet>, nat))
    requires used <= capacity && capacity >= INITIAL_CAPACITY && AllEncodable(ps)
    ensures used + |r.0| <= r.1 && r.1 >= INITIAL_CAPACITY
    decreases |ps|
  {
    if ps == [] then ([], capacity)
    else
      var (a, grown) := EmitPiece(ps[0], used, capacity);
      var (b, last) := EmitPieces(ps[1..], used + |a|, grown);
      (a + b, last)
  }

  ghost predicate NoBoundary(ps: seq<Piece>, used: nat, capacity: nat)
    requires used <= capacity && capacity >= INITIAL_CAPACITY && AllEncodable(ps)
    decreases |ps|
  {
    ps == [] ||
    (!AtBoundary(ps[0], used, capacity)
     && var (a, grown) := EmitPiece(ps[0], used, capacity); NoBoundary(ps[1..], used + |a|, grown))
  }

  /** The buffer holds the wire form exactly when no integer met the boundary case on the way. */
  lemma {:induction false} EmissionExact(ps: seq<Piece>, used: nat, capacity: nat)
    requires used <= capacity && capacity >= INITIAL_CAPACITY && AllEncodable(ps)
    ensures |EmitPieces(ps, used, capacity).0| <= |Octets(ps)|
    ensures EmitPieces(ps, used, capacity).0 == Octets(ps) <==> NoBoundary(ps, used, capacity)
    decreases |ps|
  {
    hide EmitPiece, AtBoundary, Encodable, PieceOctets;
    if ps != [] {
      PieceEmission(ps[0], used, capacity);
      var (a, grown) := EmitPiece(ps[0], used, capacity);
      EmissionExact(ps[1..], used + |a|, grown);
      var b := EmitPieces(ps[1..], used + |a|, grown).0;
      if a == PieceOctets(ps[0]) && a + b == a + Octets(ps[1..]) {
        assert (a + b)[|a|..] == b && (a + Octets(ps[1..]))[|a|..] == Octets(ps[1..]);
      }
    }
  }

  /** Octets that all fit the buffer with one to spare meet no boundary. */
  lemma {:induction false} SmallIsClean(ps: seq<Piece>, used: nat, capacity: nat)
    requires used <= capacity && capacity >= INITIAL_CAPACITY && AllEncodable(ps)
    requires used + |Octets(ps)| < capacity
    ensures NoBoundary(ps, used, capacity)
    decreases |ps|
  {
    hide EmitPiece, Encodable, PieceOctets;
    if ps != [] {
      assert ps[0] in ps;
      PieceEmission(ps[0], used, capacity);
      SmallPiece(ps[0], used, capacity);
      var (a, grown) := EmitPiece(ps[0], used, capacity);
      SmallIsClean(ps[1..], used + |a|, grown);
    }
  }

  lemma SmallPiece(p: Piece, used: nat, capacity: nat)
    requires used <= capacity && capacity >= INITIAL_CAPACITY && Encodable(p) && used + |PieceOctets(p)| < capacity
    ensures !AtBoundary(p, used, capacity) && EmitPiece(p, used, capacity).1 >= capacity
  {
    hide EmitPiece, IntegerOctets;
    if p.IntegerPiece? {
      BoundaryIsShort(p.prefix, p.n, p.v);
    }
    CapacityGrows(p, used, capacity);
  }

  lemma {:induction false} CapacityGrows(p: Piece, used: nat, capacity: nat)
    requires used <= capacity && capacity >= INITIAL_CAPACITY && Encodable(p)
    ensures EmitPiece(p, used, capacity).1 >= capacity
    decreases |PieceOctets(p)| + 1 - (capacity - used)
  {
    hide IntegerOctets, StringOctets;
    match p
    case IntegerPiece(prefix, n, v) =>
      if WriteInteger(prefix, n, v, capacity - used).NoRoom? {
        CapacityGrows(p, used, 2 * capacity);
      }
    case StringPiece(text) =>
      if WriteString(text, true, capacity - used).NoRoomForString? {
        CapacityGrows(p, used, 2 * capacity);
      }
  }

  lemma EmitUnfold(ps: seq<Piece>, used: nat, capacity: nat)
    requires used <= capacity && capacity >= INITIAL_CAPACITY && AllEncodable(ps)
    ensures EmitPieces(ps, used, capacity)
         == if ps == [] then ([], capacity)
            else var (a, grown) := EmitPiece(ps[0], used, capacity);
                 var (b, last) := EmitPieces(ps[1..], used + |a|, grown);
                 (a + b, last)
  {
    hide EmitPiece, Encodable;
  }

  lemma {:induction false} EmitConcat(ps: seq<Piece>, qs: seq<Piece>, used: nat, capacity: nat)
    requires used <= capacity && capacity >= INITIAL_CAPACITY && AllEncodable(ps) && AllEncodable(qs)
    ensures AllEncodable(ps + qs)
    ensures var (a, grown) := EmitPieces(ps, used, capacity);
            var (b, last) := EmitPieces(qs, used + |a|, grown);
            EmitPieces(ps + qs, used, capacity) == (a + b, last)
    decreases |ps|
  {
    hide EmitPiece, Encodable, EmitPieces;
    assert AllEncodable(ps + qs);
    EmitUnfold(ps, used, capacity);
    EmitUnfold(ps + qs, used, capacity);
    if ps == [] {
      assert ps + qs == qs && [] + EmitPieces(qs, used, capacity).0 == EmitPieces(qs, used, capacity).0;
    } else {
      var (a, grown) := EmitPiece(ps[0], used, capacity);
      assert (ps + qs)[1..] == ps[1..] + qs;
      EmitConcat(ps[1..], qs, used + |a|, grown);
      var (b, more) := EmitPieces(ps[1..], used + |a|, grown);
      var (c, last) := EmitPieces(qs, used + |a| + |b|, more);
      assert a + (b + c) == a + b + c;
    }
  }

  // The loops

  /** `prealloc` to twice the capacity. */
  method Doubled(buffer: array<Octet>, used: nat) returns (grown: array<Octet>)
    requires used <= buffer.Length
    ensures fresh(grown) && grown.Length == 2 * buffer.Length && grown[..used] == buffer[..used]
  {
    grown := new Octet[2 * buffer.Length];
    for i := 0 to used
      invariant grown[..i] == buffer[..i]
    {
      grown[i] := buffer[i];
    }
  }

  /** `while (!hpack_encode_integer(...)) { grow }` */
  method PutInteger(buffer: array<Octet>, used: nat, prefix: Octet, n: nat, v: nat)
    returns (out: array<Octet>, used': nat)
    requires used <= buffer.Length && buffer.Length >= INITIAL_CAPACITY && 1 <= n <= 8 && v < WORD
    modifies buffer
    ensures out == buffer || fresh(out)
    ensures var (octets, capacity) := EmitPiece(IntegerPiece(prefix, n, v), used, buffer.Length);
            used' == used + |octets| && out.Length == capacity && out[..used'] == old(buffer[..used]) + octets
  {
    hide IntegerOctets, Mask;
    out := buffer;
    ghost var p := IntegerPiece(prefix, n, v);
    var count;
    count, used' := EncodeInteger(prefix, n, v, out, used);
    if count == 0 {
      EnoughRoom(prefix, n, v, 2 * buffer.Length - used);
    }
    ghost var tries := 0;
    while count == 0
      invariant out == buffer || fresh(out)
      invariant used <= out.Length && out[..used] == old(buffer[..used]) && out.Length >= INITIAL_CAPACITY
      invariant EmitPiece(p, used, out.Length) == EmitPiece(p, used, buffer.Length)
      invariant tries == 0 ==> out.Length == buffer.Length
      invariant tries <= 1 && (count == 0 ==> tries == 0)
      invariant match WriteInteger(prefix, n, v, out.Length - used)
                case Wrote(octets) =>
                  count == |octets| > 0 && used' == used + |octets| <= out.Length && out[used..used'] == octets
                case NoRoom => count == 0 && used' == used
      decreases 1 - tries
    {
      out := Doubled(out, used);
      tries := tries + 1;
      count, used' := EncodeInteger(prefix, n, v, out, used);
    }
    assert out[..used'] == out[..used] + out[used..used'];
  }

  /** `while (!hpack_encode_string(...)) { grow }` */
  method PutString(buffer: array<Octet>, used: nat, text: seq<Octet>) returns (out: array<Octet>, used': nat)
    requires used <= buffer.Length && buffer.Length >= INITIAL_CAPACITY
    modifies buffer
    ensures out == buffer || fresh(out)
    ensures var (octets, capacity) := EmitPiece(StringPiece(text), used, buffer.Length);
            used' == used + |octets| && out.Length == capacity && out[..used'] == old(buffer[..used]) + octets
  {
    hide StringOctets;
    out := buffer;
    ghost var p := StringPiece(text);
    var count;
    count, used' := EncodeString(text, true, out, used);
    while count == 0
      invariant out == buffer || fresh(out)
      invariant used <= out.Length && out[..used] == old(buffer[..used]) && out.Length >= INITIAL_CAPACITY
      invariant EmitPiece(p, used, out.Length) == EmitPiece(p, used, buffer.Length)
      invariant match WriteString(text, true, out.Length - used)
                case WroteString(octets) =>
                  count == |octets| > 0 && used' == used + |octets| <= out.Length && out[used..used'] == octets
                case NoRoomForString => count == 0 && used' == used
      decreases if count == 0 then |StringOctets(text, true)| + 2 - (out.Length - used) else 0
    {
      out := Doubled(out, used);
      count, used' := EncodeString(text, true, out, used);
    }
    assert out[..used'] == out[..used] + out[used..used'];
  }
}
