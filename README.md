# Piece codec of the engine-sys binding

This project models the piece codec of the chess engine's Rust binding crate,
`engine-sys`, together with the discriminant table in the shared C header that
the codec is built on. A square of the board holds one byte. Its low four bits
hold the piece kind and bit 4 holds the colour. The codec:

- packs a kind and a colour into that byte (`Piece::new`);
- unpacks each field by masking (`get_type`, `get_colour`);
- validates raw bytes against the header's codes (`TryFrom<u8>` for `PieceType` and `Colour`);
- renders a piece as a display glyph: the kind's lower-case letter, upper-cased
  for White, and a space for an empty square.

It also models the two fixed-layout record defaults of the binding: the
"no move" `Play` sentinel and the zeroed `Match`.

Modules:

- `Constants` (`constants.dfy`) holds the header's codes: `PIECE_NONE=0`,
  `PIECE_PAWN=1`, `PIECE_BISHOP=2`, `PIECE_KNIGHT=3`, `PIECE_ROOK=4`,
  `PIECE_QUEEN=5`, `PIECE_KING=6`, `WHITE=0`, `BLACK=1`. Note that bishop
  comes before knight.
- `EngineSys` (`engine_sys.dfy`) holds the codec, the records and the lemmas about them.

Bytes are `bv8`, so `&`, `|`, `<<` and `>>` have the meaning of Rust's `u8`
operators. In particular `colour << 4` drops colour bits above bit 3 and moves
colour bits 1 to 3 into bits 5 to 7 of the piece byte. The model keeps that
behaviour. The panic of `.unwrap()` in `get_type` becomes a precondition
(`Piece.HasValidType`), because callers must not hold such bytes.
`get_colour` can never panic, and the model proves it: its `unwrap` is checked
with no precondition.

What the code does and does not check:

- `Piece::new` validates neither argument. It masks the kind to four bits and
  shifts the colour unchanged (engine-sys/src/lib.rs:93).
- `get_type` panics on a low nibble of 7 to 15 (engine-sys/src/lib.rs:97), and
  `get_colour` cannot fail, because it reads a single bit (engine-sys/src/lib.rs:101).
- The header numbers bishop 2 and knight 3 (shared/constants.h:6-7), so the
  kinds' codes do not follow the enum's declaration order in engine-sys/src/lib.rs:23-31.

## Model

| member | source | states |
|---|---|---|
| `Constants.PieceCodes` | shared/constants.h:4-10 | the seven kind codes in header order are exactly 0 to 6 |
| `Constants.PieceCodesDistinct` | shared/constants.h:4-10 | no two piece kinds share a code |
| `Constants.PieceCodesFitNibble` | shared/constants.h:4-10 | every kind code is below 16, so it fits in the type mask |
| `Constants.ColourCodesFitBit` | shared/constants.h:12-13 | WHITE and BLACK differ and each fits in one bit |
| `EngineSys.PieceTypeCode` | engine-sys/src/lib.rs:21-31 | a kind's discriminant is its index in the header-ordered kind table (none, pawn, bishop, knight, rook, queen, king), so one of 0 to 6 |
| `EngineSys.ColourCode` | engine-sys/src/lib.rs:33-38 | a colour's discriminant is 0 or 1 |
| `EngineSys.ColourTryFrom` | engine-sys/src/lib.rs:42-52 | a byte decodes as a colour iff it is 0 or 1, and then to the colour with that code |
| `EngineSys.PieceTypeTryFrom` | engine-sys/src/lib.rs:54-67 | a byte decodes as a kind iff it is at most 6, and then to the kind with that code |
| `EngineSys.PieceTypeTryFromCode` | engine-sys/src/lib.rs:54-67 | decoding any kind's own code yields that kind |
| `EngineSys.PieceTypeTryFromTable` | engine-sys/src/lib.rs:54-67 | a byte decodes to kind k iff the header's code table lists k with that byte as its code |
| `EngineSys.PieceTypeAcceptsOneBytePerKind` | engine-sys/src/lib.rs:54-67 | the accepted bytes are exactly the seven kinds' codes, so 7 of the 256 byte values decode and every other byte fails |
| `EngineSys.ColourAcceptsOneBytePerColour` | engine-sys/src/lib.rs:42-52 | the accepted bytes are exactly WHITE and BLACK, so 2 of the 256 byte values decode |
| `EngineSys.ColourTryFromCode` | engine-sys/src/lib.rs:42-52 | decoding any colour's own code yields that colour |
| `EngineSys.TypeGlyph` | engine-sys/src/lib.rs:70-82 | the glyph is a space iff the kind is None, otherwise a lower-case letter |
| `EngineSys.TypeGlyphByCode` | engine-sys/src/lib.rs:70-82 | the glyph of a kind is the character at its code in " pbnrqk" |
| `EngineSys.TypeGlyphInjective` | engine-sys/src/lib.rs:70-82 | distinct kinds have distinct glyphs |
| `EngineSys.Piece.New` | engine-sys/src/lib.rs:89-94 | the low nibble of the byte is the kind's low nibble, and the high nibble is the colour's low nibble |
| `EngineSys.Piece.GetType` | engine-sys/src/lib.rs:96-98 | defined only for a valid low nibble; the decoded kind's code equals the low nibble |
| `EngineSys.Piece.GetColour` | engine-sys/src/lib.rs:100-102 | never fails; the decoded colour's code equals bit 4 |
| `EngineSys.Glyph` | engine-sys/src/lib.rs:105-114 | a space iff the square is empty; upper-case iff occupied and White; lower-case iff occupied and Black |
| `EngineSys.DefaultPlay` | engine-sys/src/lib.rs:201-209 | the default move names no square (origin and destination 255) and has flag 0 |
| `EngineSys.EmptyMatch` | engine-sys/src/lib.rs:140-147 | all 64 squares are the zero byte, decode as None/White and render as a space; turn, castling rights and en passant are zero |
| `EngineSys.NewAsNumber` | engine-sys/src/lib.rs:89-94 | as a number, `new(t, c)` is `t mod 16 + 16 * (c mod 16)` |
| `EngineSys.NewRoundTrip` | engine-sys/src/lib.rs:92-102 | encoding any kind and colour, then decoding, gives both back |
| `EngineSys.NewRoundTripCodes` | engine-sys/src/lib.rs:92-102 | for raw codes t in 0..6 and c in {0, 1}, `new(t, c)` decodes to the kind with code t and the colour with code c |
| `EngineSys.NewMasksType` | engine-sys/src/lib.rs:89-94 | `new(t, c) == new(t & 0x0F, c)` |
| `EngineSys.ColourOnlyBit4` | engine-sys/src/lib.rs:90-102 | two bytes decode to the same colour iff they agree on bit 4 |
| `EngineSys.ColourIgnoresOtherBits` | engine-sys/src/lib.rs:90-102 | flipping any bit except bit 4 leaves the decoded colour unchanged |
| `EngineSys.GetTypeDefinedIff` | engine-sys/src/lib.rs:96-98 | `get_type` does not panic iff the low nibble is 0 to 6 |
| `EngineSys.DecodeEncode` | engine-sys/src/lib.rs:92-102 | re-encoding a decoded piece reproduces the byte's low five bits |
| `EngineSys.GlyphOfNew` | engine-sys/src/lib.rs:105-114 | the glyph of `new(k, c)` is k's letter, upper-cased exactly when c is White |
| `EngineSys.EmptyGlyphIgnoresColour` | engine-sys/src/lib.rs:105-114 | an empty square renders as a space whatever its colour bits |
| `EngineSys.GlyphInjective` | engine-sys/src/lib.rs:105-114 | on occupied squares, equal glyphs iff equal kind and equal colour |
| `EngineSys.ZeroByteIsEmptyWhite` | engine-sys/src/lib.rs:140-147 | the zero byte equals `new(PIECE_NONE, WHITE)` and decodes as an empty White square |

## Left out

- `Match::from_fen`, `Match::to_fen`, `Match::get_moves`, `Match::execute` and
  `Default for Match` (engine-sys/src/lib.rs:149-191) only call `extern "C"`
  functions. Their FEN parsing, move generation and move execution are
  implemented in a Zig library that is not part of this model.
- The rules engine itself (FEN codec, move generator, self-check filter,
  castling, en passant, move executor) is not part of this model, for the same reason.
- The 87-byte FEN buffer and the UTF-8 conversion in `to_fen` are marshalling
  across the language boundary, not codec logic.
- engine-sys/build.rs and orchestrator/build.rs are build tooling: they spawn
  processes, run bindgen and print cargo directives.
- orchestrator/src/main.rs prints the board to a terminal with ANSI colours and
  drives the foreign calls. It is I/O and is not modelled.
- `Piece.GetType`: the panic of `.unwrap()` on a low nibble of 7 to 15 is a
  precondition rather than a modelled abort.
- `Glyph`: `From<Piece> for char` calls `get_type` (engine-sys/src/lib.rs:107),
  so the same `.unwrap()` panic is a precondition rather than a modelled abort.
