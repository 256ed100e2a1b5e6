/** The piece codec of the engine's Rust binding (engine-sys/src/lib.rs):
    piece kinds and colours, their validation from raw bytes, the packing of
    both into one byte, the display glyphs, and the two fixed-layout record
    defaults. Bytes are `bv8`, so `&`, `|`, `<<` and `>>` behave as on Rust's
    `u8` (a left shift drops the bits it pushes past bit 7). */
module EngineSys {
  import opened Constants

  type byte = bv8

  /** Rust's `Result<Self, ()>`: the decoders fail without a payload. */
  datatype Result<T> = Ok(value: T) | Err

  /** `.unwrap()`: panics on `Err`, so callers must rule that out. */
  function Unwrap<T>(r: Result<T>): T
    requires r.Ok?
  {
    r.value
  }

  datatype PieceType = None | Pawn | Knight | Bishop | Rook | Queen | King

  datatype Colour = White | Black

  /** `k as u8`: the enum's discriminant, taken from the shared header. */
  function PieceTypeCode(k: PieceType): (v: byte)
    ensures v as int < |KINDS_BY_CODE| && KINDS_BY_CODE[v] == k
  {
    match k
    case None => PIECE_NONE as byte
    case Pawn => PIECE_PAWN as byte
    case Knight => PIECE_KNIGHT as byte
    case Bishop => PIECE_BISHOP as byte
    case Rook => PIECE_ROOK as byte
    case Queen => PIECE_QUEEN as byte
    case King => PIECE_KING as byte
  }

  /** `c as u8`. */
  function ColourCode(c: Colour): (v: byte)
    ensures v == 0 || v == 1
  {
    match c
    case White => WHITE as byte
    case Black => BLACK as byte
  }

  /** `TryFrom<u8> for Colour`: only the two header codes decode. */
  function ColourTryFrom(value: byte): (r: Result<Colour>)
    ensures r.Ok? <==> value == 0 || value == 1
    ensures r.Ok? ==> ColourCode(r.value) == value
  {
    if value as int == WHITE then Ok(White)
    else if value as int == BLACK then Ok(Black)
    else Err
  }

  /** `TryFrom<u8> for PieceType`: only the seven header codes decode. */
  function PieceTypeTryFrom(value: byte): (r: Result<PieceType>)
    ensures r.Ok? <==> value <= 6
    ensures r.Ok? ==> PieceTypeCode(r.value) == value
  {
    if value as int == PIECE_NONE then Ok(None)
    else if value as int == PIECE_PAWN then Ok(Pawn)
    else if value as int == PIECE_KNIGHT then Ok(Knight)
    else if value as int == PIECE_BISHOP then Ok(Bishop)
    else if value as int == PIECE_ROOK then Ok(Rook)
    else if value as int == PIECE_QUEEN then Ok(Queen)
    else if value as int == PIECE_KING then Ok(King)
    else Err
  }

  /** Decoding a kind's own code gives back that kind. */
  lemma PieceTypeTryFromCode(k: PieceType)
    ensures PieceTypeTryFrom(PieceTypeCode(k)) == Ok(k)
  {
  }

  /** The kinds in the order the header numbers them: the kind at index i has code i. */
  const KINDS_BY_CODE: seq<PieceType> := [None, Pawn, Bishop, Knight, Rook, Queen, King]

  /** Decoding a byte is looking it up in the header's table: it yields kind k
      exactly when some entry of the table is k and carries code v. */
  lemma PieceTypeTryFromTable(v: byte, k: PieceType)
    ensures PieceTypeTryFrom(v) == Ok(k) <==>
      exists i :: 0 <= i < |KINDS_BY_CODE| && KINDS_BY_CODE[i] == k && PieceCodes()[i] == v as int
  {
    if PieceTypeTryFrom(v) == Ok(k) {
      var i := v as int;
      assert KINDS_BY_CODE[i] == k && PieceCodes()[i] == i;
    }
  }

  /** Whether the number n is a byte value that `PieceType::try_from` accepts. */
  predicate DecodesAsKind(n: int)
    requires 0 <= n < 256
  {
    PieceTypeTryFrom(n as byte).Ok?
  }

  /** The byte values `PieceType::try_from` accepts, as numbers. */
  function AcceptedKindBytes(): set<int> {
    set n | 0 <= n < 256 && DecodesAsKind(n)
  }

  /** The accepted byte values are exactly 0 to 6. */
  lemma AcceptedKindBytesAreZeroToSix()
    ensures AcceptedKindBytes() == {0, 1, 2, 3, 4, 5, 6}
  {
    forall n | 0 <= n < 256 ensures n in AcceptedKindBytes() <==> n in {0, 1, 2, 3, 4, 5, 6} {
      var b := n as byte;
      assert b as int == n;
      assert b <= 6 <==> n <= 6;
      assert PieceTypeTryFrom(b).Ok? <==> b <= 6;
    }
  }

  /** The codes of the seven kinds are exactly 0 to 6. */
  lemma KindCodesAreZeroToSix()
    ensures (set k | k in KINDS_BY_CODE :: PieceTypeCode(k) as int) == {0, 1, 2, 3, 4, 5, 6}
  {
    var codes := set k | k in KINDS_BY_CODE :: PieceTypeCode(k) as int;
    forall n | 0 <= n < 7 ensures n in codes {
      assert PieceTypeCode(KINDS_BY_CODE[n]) as int == n;
    }
  }

  /** Of the 256 byte values exactly seven decode as a kind: the codes of the
      seven kinds, one byte per kind. */
  lemma PieceTypeAcceptsOneBytePerKind()
    ensures AcceptedKindBytes() == set k | k in KINDS_BY_CODE :: PieceTypeCode(k) as int
    ensures |AcceptedKindBytes()| == |KINDS_BY_CODE| == 7
  {
    var small: set<int> := {0, 1, 2, 3, 4, 5, 6};
    assert |small| == 7;
    AcceptedKindBytesAreZeroToSix();
    KindCodesAreZeroToSix();
  }

  /** Decoding a colour's own code gives back that colour. */
  lemma ColourTryFromCode(c: Colour)
    ensures ColourTryFrom(ColourCode(c)) == Ok(c)
  {
  }

  /** Whether the number n is a byte value that `Colour::try_from` accepts. */
  predicate DecodesAsColour(n: int)
    requires 0 <= n < 256
  {
    ColourTryFrom(n as byte).Ok?
  }

  /** The byte values `Colour::try_from` accepts, as numbers. */
  function AcceptedColourBytes(): set<int> {
    set n | 0 <= n < 256 && DecodesAsColour(n)
  }

  /** Of the 256 byte values exactly two decode as a colour: WHITE and BLACK. */
  lemma ColourAcceptsOneBytePerColour()
    ensures AcceptedColourBytes() == {WHITE as int, BLACK as int}
    ensures |AcceptedColourBytes()| == 2
  {
    assert AcceptedColourBytes() == {0, 1};
  }

  /** `From<PieceType> for char`: a lower-case letter per kind, a space for none. */
  function TypeGlyph(k: PieceType): (ch: char)
    ensures ch == ' ' <==> k == None
    ensures k != None ==> 'a' <= ch <= 'z'
  {
    match k
    case Pawn => 'p'
    case Knight => 'n'
    case Bishop => 'b'
    case Rook => 'r'
    case Queen => 'q'
    case King => 'k'
    case None => ' '
  }

  /** The kind letters listed by code: the glyph of a kind is the letter at its code. */
  const GLYPHS_BY_CODE: string := " pbnrqk"

  lemma TypeGlyphByCode(k: PieceType)
    ensures TypeGlyph(k) == GLYPHS_BY_CODE[PieceTypeCode(k)]
  {
  }

  /** Distinct kinds have distinct glyphs. */
  lemma TypeGlyphInjective(k1: PieceType, k2: PieceType)
    ensures TypeGlyph(k1) == TypeGlyph(k2) ==> k1 == k2
  {
  }

  /** Rust's `char::to_ascii_uppercase`. */
  function ToAsciiUppercase(ch: char): (u: char)
    ensures 'a' <= ch <= 'z' ==> 'A' <= u <= 'Z' && u as int + 32 == ch as int
    ensures !('a' <= ch <= 'z') ==> u == ch
  {
    if 'a' <= ch <= 'z' then (ch as int - 32) as char else ch
  }

  const TYPE_MASK: byte := 0x0F
  const COLOUR_BIT: byte := 4

  /** A square's content: kind in the low nibble, colour in bit 4. */
  datatype Piece = Piece(bits: byte) {

    /** `Piece::new`: the kind is masked to its low nibble, the colour is
        shifted into bit 4 (and any higher colour bits into bits 5 to 7). */
    static function New(pieceType: byte, colour: byte): (p: Piece)
      ensures p.bits & TYPE_MASK == pieceType & TYPE_MASK
      ensures p.bits >> COLOUR_BIT == colour & TYPE_MASK
    {
      Piece((pieceType & TYPE_MASK) | (colour << COLOUR_BIT))
    }

    /** Whether `get_type` returns instead of panicking in `unwrap`. */
    predicate HasValidType() {
      PieceTypeTryFrom(bits & TYPE_MASK).Ok?
    }

    /** `get_type`: decodes the low nibble; panics unless it is a kind code. */
    function GetType(): (k: PieceType)
      requires HasValidType()
      ensures PieceTypeCode(k) == bits & TYPE_MASK
    {
      Unwrap(PieceTypeTryFrom(bits & TYPE_MASK))
    }

    /** `get_colour`: decodes bit 4; never panics. */
    function GetColour(): (c: Colour)
      ensures ColourCode(c) == (bits >> COLOUR_BIT) & 1
    {
      Unwrap(ColourTryFrom((bits >> COLOUR_BIT) & 1))
    }
  }

  /** `From<Piece> for char`: the kind's glyph, upper-cased for White. */
  function Glyph(p: Piece): (ch: char)
    requires p.HasValidType()
    ensures ch == ' ' <==> p.GetType() == None
    ensures 'A' <= ch <= 'Z' <==> p.GetType() != None && p.GetColour() == White
    ensures 'a' <= ch <= 'z' <==> p.GetType() != None && p.GetColour() == Black
  {
    var c := TypeGlyph(p.GetType());
    if p.GetColour() == White then ToAsciiUppercase(c) else c
  }

  /** The move record crossing the language boundary. */
  datatype Play = Play(org: byte, dst: byte, flag: byte)

  /** `Default for Play`: the "no move" sentinel, naming no square of the board. */
  function DefaultPlay(): (p: Play)
    ensures p.org as int >= BOARD_SQUARES && p.dst as int >= BOARD_SQUARES
    ensures p.org == p.dst == 255 && p.flag == 0
  {
    Play(255, 255, 0)
  }

  const BOARD_SQUARES: nat := 64

  type Board = b: seq<Piece> | |b| == BOARD_SQUARES witness seq(BOARD_SQUARES, _ => Piece(0))

  /** The position record: 64 squares, side to move, castling rights, en passant target. */
  datatype Match = Match(board: Board, turn: byte, castlingRights: byte, enPassant: byte)

  /** `Match::empty`: every square is the zero byte, every other field zero. */
  function EmptyMatch(): (m: Match)
    ensures forall i :: 0 <= i < BOARD_SQUARES ==> m.board[i].bits == 0
    ensures forall i :: 0 <= i < BOARD_SQUARES ==>
      m.board[i].HasValidType() && m.board[i].GetType() == None && m.board[i].GetColour() == White
    ensures forall i :: 0 <= i < BOARD_SQUARES ==> Glyph(m.board[i]) == ' '
    ensures m.turn == 0 && m.castlingRights == 0 && m.enPassant == 0
    ensures ColourTryFrom(m.turn) == Ok(White)
  {
    Match(seq(BOARD_SQUARES, _ => Piece(0)), 0, 0, 0)
  }

  // ---- Properties of the codec ----

  lemma MaskIsRemainder(x: byte)
    ensures (x & TYPE_MASK) as int == x as int % 16
  {
  }

  lemma ShiftIsProduct(x: byte)
    ensures (x << COLOUR_BIT) as int == 16 * (x as int % 16)
  {
  }

  lemma DisjointOrIsSum(a: byte, b: byte)
    requires a & b == 0
    ensures (a | b) as int == a as int + b as int
  {
  }

  /** As a number, a piece byte is the kind's low nibble plus sixteen times the
      colour's low nibble: the byte keeps both fields side by side. */
  lemma NewAsNumber(t: byte, c: byte)
    ensures Piece.New(t, c).bits as int == t as int % 16 + 16 * (c as int % 16)
  {
    MaskIsRemainder(t);
    ShiftIsProduct(c);
    DisjointOrIsSum(t & TYPE_MASK, c << COLOUR_BIT);
  }

  /** Encoding a kind and a colour and decoding them gives both back. */
  lemma NewRoundTrip(k: PieceType, c: Colour)
    ensures Piece.New(PieceTypeCode(k), ColourCode(c)).HasValidType()
    ensures Piece.New(PieceTypeCode(k), ColourCode(c)).GetType() == k
    ensures Piece.New(PieceTypeCode(k), ColourCode(c)).GetColour() == c
  {
  }

  /** The same round trip stated on raw codes, as the header defines them. */
  lemma NewRoundTripCodes(t: byte, c: byte)
    requires t as int < |PieceCodes()| && (c as int == WHITE || c as int == BLACK)
    ensures Piece.New(t, c).HasValidType()
    ensures PieceTypeCode(Piece.New(t, c).GetType()) == t
    ensures ColourCode(Piece.New(t, c).GetColour()) == c
  {
  }

  /** `new` keeps only the low nibble of the kind argument. */
  lemma NewMasksType(t: byte, c: byte)
    ensures Piece.New(t, c) == Piece.New(t & TYPE_MASK, c)
  {
  }

  /** The decoded colour depends on bit 4 alone. */
  lemma ColourOnlyBit4(b1: byte, b2: byte)
    ensures (b1 >> COLOUR_BIT) & 1 == (b2 >> COLOUR_BIT) & 1 <==> Piece(b1).GetColour() == Piece(b2).GetColour()
  {
  }

  /** Flipping any bit other than bit 4 leaves the decoded colour unchanged. */
  lemma ColourIgnoresOtherBits(b: byte, i: nat)
    requires i < 8 && i != 4
    ensures Piece(b ^ (1 as byte << i)).GetColour() == Piece(b).GetColour()
  {
  }

  /** `get_type` is defined exactly when the low nibble is 0 to 6. */
  lemma GetTypeDefinedIff(b: byte)
    ensures Piece(b).HasValidType() <==> b & TYPE_MASK <= 6
  {
  }

  /** Re-encoding a decoded piece reproduces its low five bits. */
  lemma DecodeEncode(p: Piece)
    requires p.HasValidType()
    ensures Piece.New(PieceTypeCode(p.GetType()), ColourCode(p.GetColour())).bits == p.bits & 0x1F
  {
  }

  /** The glyph of an encoded piece: its kind's letter, upper-cased exactly for White. */
  lemma GlyphOfNew(k: PieceType, c: Colour)
    ensures Piece.New(PieceTypeCode(k), ColourCode(c)).HasValidType()
    ensures Glyph(Piece.New(PieceTypeCode(k), ColourCode(c)))
         == if c == White then ToAsciiUppercase(TypeGlyph(k)) else TypeGlyph(k)
  {
  }

  /** An empty square renders as a space whatever its colour bit. */
  lemma EmptyGlyphIgnoresColour(c: byte)
    ensures Piece.New(PieceTypeCode(None), c).HasValidType()
    ensures Glyph(Piece.New(PieceTypeCode(None), c)) == ' '
  {
  }

  /** The glyph of an occupied square determines its kind and colour. */
  lemma GlyphInjective(p: Piece, q: Piece)
    requires p.HasValidType() && q.HasValidType()
    requires p.GetType() != None && q.GetType() != None
    ensures Glyph(p) == Glyph(q) <==> p.GetType() == q.GetType() && p.GetColour() == q.GetColour()
  {
  }

  /** The all-zero byte is a White-tagged empty square. */
  lemma ZeroByteIsEmptyWhite()
    ensures Piece(0) == Piece.New(PIECE_NONE as byte, WHITE as byte)
    ensures Piece(0).HasValidType() && Piece(0).GetType() == None && Piece(0).GetColour() == White
  {
  }
}
