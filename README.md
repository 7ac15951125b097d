# baba-text in Dafny

baba-text renders text in the style of the game "Baba Is You". A text is split into words.
Each word becomes a background tile holding an animated sprite for each of its letters. The
words are laid out on a grid of `SPRITE_SIZE` squares, and every frame of the animation draws
each word and then advances it by one sprite. A second renderer turns a picture into ASCII
art: the picture is downsampled, each pixel picks a character from a colour ramp by its
luminance, and each character is drawn as an animated letter. The chat bot in front of both
unescapes and checks the incoming message, and it picks the downsampling factor for
pictures.

The model has one Dafny module per source file:

- `Geometry` for `Rect`;
- `MaskedImages` for `MaskedImage`;
- `AnimatedObjects` for `AnimatedObject`;
- `Letters` for `AnimatedLetter`;
- `Words` for `AnimatedWord`;
- `Texts` for `AnimatedText`;
- `Constants` for the tables and `get_allowed_characters`;
- `AsciiArt` for `AnimatedAsciiArt`;
- `Bot` for the message handling of `bot.py`.

Four supporting modules hold what the sources rely on from Python and its libraries:

- `Wrappers`: the exceptions, as a `Result`.
- `Pixels`: RGBA colours and numpy buffers as `array2<Color>`.
- `UrlCodec`: `urllib.parse.quote`/`unquote` over UTF-8, as in sections 2.1 and 2.3 of RFC 3986.
- `CaseMapping`: `str.upper`/`str.lower` on ASCII letters.

Each form follows the source:

- Objects whose fields change in place are classes: the cursor of an `AnimatedObject`, the
  left and top of a `Rect`, and the pixels of a buffer.
- Pure computations are functions with lemmas: the layout arithmetic, tokenizing, colour
  choice and URL encoding.
- Loops are methods with invariants, each proved against a specification function.

Floating-point arithmetic is modelled as exact `real` arithmetic. Python's `round` is
modelled exactly (ties go to the even integer). An operation that raises in the source
returns `Err` with the exception and its message.

## Model

| member | source | states |
|---|---|---|
| Geometry.Round | baba_text/rect.py:3-6 | the result is within 0.5 of the argument, and a tie goes to the even integer |
| Geometry.RoundOfInt | baba_text/rect.py:3-6 | an integer coordinate is stored unchanged |
| Geometry.RoundNonNegative | baba_text/rect.py:3-6 | a non-negative coordinate stays non-negative |
| Geometry.RoundMonotone | baba_text/rect.py:3-6 | rounding never reverses the order of two coordinates |
| Geometry.RoundedBounds | baba_text/rect.py:2-6 | each stored field is within 0.5 of the value given |
| Geometry.Rect.constructor | baba_text/rect.py:2-6 | the new rectangle holds the four rounded values |
| Geometry.Rect.Right | baba_text/rect.py:16-18 | the right edge lies exactly `width` to the right of the left edge |
| Geometry.Rect.Bottom | baba_text/rect.py:28-30 | the bottom edge lies exactly `height` below the top edge |
| Geometry.Rect.Size | baba_text/rect.py:40-42 | the size is the pair of distances from left to right and from top to bottom |
| Geometry.Rect.SetLeft | baba_text/rect.py:12-14 | left becomes the rounded value; the right edge moves with it and the top is unchanged |
| Geometry.Rect.SetTop | baba_text/rect.py:24-26 | top becomes the rounded value; the bottom edge moves with it and the left is unchanged |
| MaskedImages.MaskedImage.constructor | baba_text/masked_image.py:6-12 | the record holds its five fields, and the image and both masks have one shape |
| MaskedImages.MaskedImage.SetForegroundColor | baba_text/masked_image.py:14-15 | exactly the pixels of the foreground mask take the colour; the masks are unchanged |
| MaskedImages.MaskedImage.SetBackgroundColor | baba_text/masked_image.py:17-18 | exactly the pixels of the background mask take the colour; the masks are unchanged |
| MaskedImages.MaskedImage.SetForegroundColorTwice | baba_text/masked_image.py:14-15 | setting the same foreground colour twice gives the image that setting it once gives |
| MaskedImages.MaskedImage.SetBackgroundColorTwice | baba_text/masked_image.py:17-18 | setting the same background colour twice gives the image that setting it once gives |
| MaskedImages.MaskedImage.SetColors | baba_text/masked_image.py:14-18 | with disjoint masks, each pixel ends with its mask's colour, and a pixel in neither mask is unchanged |
| Pixels.Filled | baba_text/animated_text.py:66-70 | a fresh buffer of the given shape in which every pixel has the given colour |
| Pixels.FromRaster | baba_text/animated_object.py:50-54 | a fresh buffer holding the decoded picture pixel for pixel |
| Pixels.OverwriteWhere | baba_text/animated_object.py:57-58 | the selected pixels take the colour and all others keep theirs |
| Pixels.ForegroundMask | baba_text/animated_object.py:55 | a pixel is selected exactly when some channel differs from the mask colour |
| Pixels.BackgroundMask | baba_text/animated_object.py:56 | a pixel is selected exactly when every channel equals the mask colour |
| Pixels.MasksPartition | baba_text/animated_object.py:55-56 | every pixel is in exactly one of the two masks, and it is in the background mask exactly when it is the mask colour |
| UrlCodec.HexDigitValue | baba_text/animated_letter.py:27 | a hex digit that is written out reads back as its value |
| UrlCodec.Utf8Encode | baba_text/animated_letter.py:27 | 1 to 4 bytes; one byte exactly for ASCII, which is the code itself; every byte of a longer sequence is at least 0x80 |
| UrlCodec.SequenceLength | baba_text/constants.py:38 | a lead byte announces at most four bytes |
| UrlCodec.ContinuationRun | baba_text/constants.py:38 | the counted bytes all continue the sequence of the lead byte and stay inside it |
| UrlCodec.ContinuationRunFull | baba_text/constants.py:38 | when all bytes continue the sequence, the count reaches its end |
| UrlCodec.DecodeWellFormed | baba_text/constants.py:38 | a complete well-formed sequence at the front decodes to its scalar value |
| UrlCodec.Utf8DecodeEncode | baba_text/constants.py:38 | decoding gives back every encoded character, whatever follows it |
| UrlCodec.PercentEncoded | baba_text/animated_letter.py:27 | "%" and two hex digits whose value is the byte |
| UrlCodec.QuoteByte | baba_text/animated_letter.py:27 | a byte is either kept as the character with that code (never "%") or percent-encoded |
| UrlCodec.QuoteAscii | baba_text/animated_letter.py:27 | `quote` produces only ASCII |
| UrlCodec.AsciiRun | baba_text/constants.py:38 | the length of the longest prefix made of ASCII characters |
| UrlCodec.PercentDecodeQuoteBytes | baba_text/constants.py:38 | percent-decoding what `quote` produced for some bytes gives those bytes back |
| UrlCodec.DecodeQuoted | baba_text/constants.py:38 | percent-decoding and then UTF-8 decoding a quoted string gives the string back |
| UrlCodec.DecodePlainAscii | baba_text/constants.py:38 | an ASCII string without "%" decodes to itself |
| UrlCodec.UnquoteRunsPlain | baba_text/constants.py:38 | the run-by-run decoding leaves a string without "%" unchanged |
| UrlCodec.UnquoteIsRuns | baba_text/constants.py:38 | the shortcut of `unquote` for strings without "%" agrees with its general path |
| UrlCodec.UnquoteQuote | baba_text/constants.py:38 | `unquote(quote(s)) == s` for every string |
| CaseMapping.UpperChar | baba_text/animated_letter.py:17 | no lower-case letter remains; a lower-case letter moves to its upper-case partner and anything else is kept |
| CaseMapping.LowerChar | baba_text/constants.py:42-43 | no upper-case letter remains; an upper-case letter moves to its lower-case partner and anything else is kept |
| CaseMapping.Upper | baba_text/animated_letter.py:17 | the string keeps its length and is upper-cased character by character |
| CaseMapping.Lower | baba_text/constants.py:42-43 | the string keeps its length and is lower-cased character by character |
| CaseMapping.CasedIffLetter | baba_text/constants.py:42 | the lower and upper forms differ exactly when the string contains a letter |
| Constants.Values | baba_text/animated_text.py:124 | the values of the dictionary's entries, in insertion order |
| Constants.KnownWordColorsFromPalette | baba_text/constants.py:71-109 | every colour in the word table is a palette colour or white |
| Constants.KnownWordsCaseSensitive | baba_text/constants.py:89-98 | "Red" and "red" map to different colours |
| Constants.FirstUnderscore | baba_text/constants.py:38 | the position of the first "_", or the length of the name when it has none |
| Constants.GlyphPrefix | baba_text/constants.py:38 | `name.split("_")[0]` has no "_" and starts the name |
| Constants.ContributionsAppend | baba_text/constants.py:31-43 | one more file adds exactly its own contribution to the set |
| Constants.GetAllowedCharacters | baba_text/constants.py:28-47 | the loop computes exactly the allowed set that the sprite basenames define |
| Constants.AlwaysAllowed | baba_text/constants.py:45 | space, tab, newline and "_" are allowed whatever the sprites are |
| Constants.ContributionAllowed | baba_text/constants.py:35-43 | a file that is not skipped makes its decoded prefix allowed, and its lower case too when it has case; a skipped file adds nothing |
| Constants.AllowedIgnoresOrder | baba_text/constants.py:31-47 | the allowed set depends only on which files exist, not on the order the glob lists them in |
| AnimatedObjects.SpriteFiles | baba_text/animated_object.py:46 | the files are exactly the basenames of the form `<name>_*.png` |
| AnimatedObjects.StepProperties | baba_text/animated_object.py:31-37 | the cursor stays in range; with two or more sprites it moves, with two it alternates, and with one it stays at 0 |
| AnimatedObjects.AnimatedObject.constructor | baba_text/animated_object.py:12-29 | the object holds its fields, and its cursor starts at sprite 0 |
| AnimatedObjects.AnimatedObject.Load | baba_text/animated_object.py:12-61 | FileNotFoundError exactly when there is no sprite; otherwise one fresh sprite per picture, each pixel recoloured by the mask colour, with the cursor at 0 |
| AnimatedObjects.AnimatedObject.AdvanceAnimation | baba_text/animated_object.py:31-37 | the cursor moves by an allowed offset, wraps around, and moves whenever there are two or more sprites |
| AnimatedObjects.AnimatedObject.Draw | baba_text/animated_object.py:39-43 | the box's rows and columns show the current sprite, and every other pixel of the surface is unchanged |
| Letters.UrlEncodeSlash | baba_text/animated_letter.py:24-25 | "/" becomes "%2F" |
| Letters.UrlEncodeUnreserved | baba_text/animated_letter.py:26-27 | letters, digits and "_.-~" encode to themselves |
| Letters.UrlEncodeOtherAscii | baba_text/animated_letter.py:26-27 | any other ASCII character becomes "%" and two upper-case hex digits of its code |
| Letters.QuoteBytesNoSlash | baba_text/animated_letter.py:26-27 | the quoted bytes of a character other than "/" hold no "/", and they hold "_" only for "_" itself |
| Letters.UrlEncodeNoSlash | baba_text/animated_letter.py:22-27 | no sprite name contains "/", and only "_" encodes to a name containing "_" |
| Letters.UrlEncodeShape | baba_text/animated_letter.py:22-27 | a sprite name is one character or starts with "%" |
| Letters.UnquoteUrlEncode | baba_text/animated_letter.py:22-27 | `unquote(url_encode(c)) == c` for every character |
| Letters.SpriteNameIgnoresCase | baba_text/animated_letter.py:17 | a lower-case letter uses the same sprites as its upper case |
| Letters.NewLetter | baba_text/animated_letter.py:8-20 | the object is loaded under the encoded upper-case name; without sprites the result is FileNotFoundError "Got illegal character: " with the letter |
| Letters.PrefixBeforeUnderscore | baba_text/constants.py:38 | a file `<name>_...` whose name has no "_" has that name as its prefix |
| Letters.NotSkipped | baba_text/constants.py:35-36 | a sprite file of a letter is not skipped as "_" or as the background tile |
| Letters.SpriteFilePrefix | baba_text/constants.py:35-38 | a letter's sprite file is kept, and its prefix is the letter's sprite name |
| Letters.SpriteFileMakesLetterAllowed | baba_text/constants.py:31-43 | a letter that has a sprite file is allowed in its upper case, and in both cases when it is a letter |
| Letters.LetterCases | baba_text/constants.py:41-43 | an ASCII letter's upper-case form has case, and the letter is its upper or lower form |
| Letters.FirstUnderscoreAt | baba_text/constants.py:38 | the first "_" is found where it is |
| Words.IntSqrt | baba_text/animated_word.py:45 | `floor(sqrt(n))`: the largest r with r*r <= n |
| Words.SqrtFrom | baba_text/animated_word.py:45 | an upward search from a small enough candidate finds that largest r |
| Words.CeilDiv | baba_text/animated_word.py:46 | `ceil(a / b)`: the smallest q with a <= q*b |
| Words.LetterSize | baba_text/animated_word.py:67-72 | the chosen size keeps the width-to-height ratio of 0.8 |
| Words.LetterSizeBounds | baba_text/animated_word.py:59-72 | the letter fits both wanted sizes and reaches one of them |
| Words.Arrange | baba_text/animated_word.py:59-75 | a grid of the given rows and columns whose letters keep the 0.8 ratio |
| Words.Fit | baba_text/animated_word.py:44-75 | `floor(sqrt(n))` rows of `ceil(n / rows)` letters each, both positive |
| Words.PerRowAtLeastRows | baba_text/animated_word.py:45-46 | each row holds at least as many letters as there are rows |
| Words.OnlyLastRowShort | baba_text/animated_word.py:45-46 | the rows before the last are full and the last row is not empty |
| Words.GridShape | baba_text/animated_word.py:45-46 | every letter fits in the grid, and only the last row can be short |
| Words.ArrangeWithinWanted | baba_text/animated_word.py:59-72 | neither letter dimension exceeds what the box allows, and one of them reaches it |
| Words.ArrangeCentred | baba_text/animated_word.py:74-75 | the grid fits the scaled box, with equal margins on either side |
| Words.ArrangeNonNegative | baba_text/animated_word.py:59-78 | a box of non-negative size gives letters and offsets of non-negative size |
| Words.ArrangeSizeNonNegative | baba_text/animated_word.py:59-72 | a box of non-negative size gives letters of non-negative size |
| Words.CentredNonNegative | baba_text/animated_word.py:74-78 | a grid that uses at most the scaled box and is centred in it starts inside the box |
| Words.RowMajor | baba_text/animated_word.py:81-83 | letter `row * perRow + col` lies in row `row`, column `col` |
| Words.RowColumnOf | baba_text/animated_word.py:81-115 | every letter has a row and a column, and they give the letter back |
| Words.CellAt | baba_text/animated_word.py:81-115 | the rectangle of a letter is the one placed at its row and column |
| Words.FullRowCell | baba_text/animated_word.py:81-90 | the letters of a full row are placed from the grid's left edge |
| Words.ShortRowCell | baba_text/animated_word.py:92-105 | the letters of a short last row are shifted right by half the missing width |
| Words.CellInGrid | baba_text/animated_word.py:81-115 | every letter lies in one of the grid's rows; in a short last row it is one of the remaining letters |
| Words.NextLeft | baba_text/animated_word.py:85 | a letter ends where the next one in its row starts |
| Words.LeftMonotone | baba_text/animated_word.py:85 | letters further right in a row start further right |
| Words.NextTop | baba_text/animated_word.py:86 | a row ends where the next row starts |
| Words.TopMonotone | baba_text/animated_word.py:86 | lower rows start lower |
| Words.ArrangeIsCentred | baba_text/animated_word.py:74-78 | the letters have non-negative size and the margins are equal and non-negative |
| Words.FitCentred | baba_text/animated_word.py:74-78 | for a box of non-negative size, the offset assertions of the source always hold |
| Words.ShortRowShiftNonNegative | baba_text/animated_word.py:92-96 | a short last row is shifted right, never left |
| Words.FullRowEnd | baba_text/animated_word.py:107-115 | a full row ends at the box's right edge minus the margin |
| Words.ShortRowEnd | baba_text/animated_word.py:92-105 | a centred short row ends before a full row does |
| Words.LastRowEnd | baba_text/animated_word.py:101 | the rows end at the box's bottom edge minus the margin |
| Words.RowStart | baba_text/animated_word.py:86 | every row starts at or below the box's top edge |
| Words.ColumnStart | baba_text/animated_word.py:85 | every letter starts at or right of the box's left edge |
| Words.CellInsideBox | baba_text/animated_word.py:80-115 | before rounding, every letter's rectangle lies inside the word's box |
| Words.ReadingOrder | baba_text/animated_word.py:80-115 | a later letter is in a later row, or further right in the same row |
| Words.CellsDisjoint | baba_text/animated_word.py:80-115 | before rounding, two different letters do not overlap |
| Words.FitTextToBox | baba_text/animated_word.py:44-119 | AssertionError with the text exactly when an offset is negative; otherwise one fresh rectangle per letter, letter k on cell k of the grid |
| Words.PlaceLetters | baba_text/animated_word.py:80-115 | one rectangle per letter, on its cell |
| Words.PlaceFullRows | baba_text/animated_word.py:81-90 | the rows before the last, each with `perRow` letters on their cells |
| Words.PlaceLastRow | baba_text/animated_word.py:92-115 | the earlier rows are kept and the last row adds the remaining letters on their cells |
| Words.PlaceShortRow | baba_text/animated_word.py:92-105 | a short last row adds its remaining letters on their shifted cells |
| Words.PlaceFullLastRow | baba_text/animated_word.py:106-115 | a full last row adds `perRow` letters on their cells |
| Words.CellSize | baba_text/animated_word.py:84-89 | every letter's rectangle has the rounded letter size |
| Words.AnimatedWord.Layers | baba_text/animated_word.py:39-42 | the tile is drawn first, then the letters in order |
| Words.AnimatedWord.constructor | baba_text/animated_word.py:16-32 | the word holds its text, its box, its tile and its letters |
| Words.AnimatedWord.Create | baba_text/animated_word.py:16-32 | an empty text fails the assertion, the first character without sprites fails with FileNotFoundError, and so does a missing tile; otherwise there is one letter per character on its cell, and the tile has the word's box and colours |
| Words.AnimatedWord.MakeLetters | baba_text/animated_word.py:26-29 | one fresh, distinct letter per character on its rectangle, or the error of the first character without sprites |
| Words.AnimatedWord.AdvanceAnimation | baba_text/animated_word.py:34-37 | the tile and every letter step once |
| Words.AnimatedWord.Draw | baba_text/animated_word.py:39-42 | every pixel ends as the tile and then the letters, painted in order, leave it |
| Words.DrawLayers | baba_text/animated_word.py:39-42 | drawing objects in order leaves every pixel as their pictures, the last covering one winning, over the colour it had |
| Words.OverConcat | baba_text/animated_word.py:39-42 | drawing two lists of layers one after the other paints what drawing their concatenation paints |
| Words.OverUncovered | baba_text/animated_object.py:39-43 | a pixel no layer covers keeps its colour |
| Words.Picture | baba_text/animated_object.py:39-43 | each object contributes, in order, the sprite its recorded cursor picks, placed on its box |
| Words.PictureConcat | baba_text/animated_word.py:39-42 | the picture of two lists of objects is the first's picture followed by the second's |
| Texts.SplitFrom | baba_text/animated_text.py:59 | the split of `str.split(" ")` always has at least one piece |
| Texts.NonEmpty | baba_text/animated_text.py:59 | exactly the non-empty pieces are kept |
| Texts.RemoveSpaces | baba_text/animated_text.py:54-59 | the result holds no space |
| Texts.RemoveControlSequences | baba_text/animated_text.py:46-48 | exactly the tokens other than a tab or a newline are kept |
| Texts.SplitFromNoSpace | baba_text/animated_text.py:59 | no piece contains a space |
| Texts.SplitFromConcat | baba_text/animated_text.py:59 | gluing the pieces together gives the text without its spaces |
| Texts.NonEmptyConcat | baba_text/animated_text.py:59 | dropping empty pieces does not change what they glue to |
| Texts.ReplaceKeepsLetters | baba_text/animated_text.py:54-56 | padding a character with spaces changes nothing once spaces are removed |
| Texts.TokensAreWords | baba_text/animated_text.py:50-59 | tokens are never empty and never contain a space |
| Texts.TokensConcat | baba_text/animated_text.py:50-59 | the tokens glued together give the text without its spaces: tokenizing loses no character |
| Texts.PaddingFlanks | baba_text/animated_text.py:54-56 | after padding, every occurrence of the character has a space on either side |
| Texts.PaddingKeepsFlanked | baba_text/animated_text.py:54-56 | padding the tab keeps the newlines flanked by spaces |
| Texts.SplitIsolates | baba_text/animated_text.py:59 | splitting leaves each flanked character alone in its piece |
| Texts.ControlTokensIsolated | baba_text/animated_text.py:50-59 | every newline and every tab is a token of its own, and no other token contains one |
| Texts.ReplaceCharAppend | baba_text/animated_text.py:54-56 | replacing a character in a joined text replaces it in each part |
| Texts.SplitFromAppend | baba_text/animated_text.py:59 | a space closes the piece being built: the pieces of `a + " " + b` are those of `a`, then those of `b` |
| Texts.SplitFromWord | baba_text/animated_text.py:59 | a text without spaces is one piece |
| Texts.NonEmptyAppend | baba_text/animated_text.py:59 | dropping the empty pieces of a joined list drops them from each part |
| Texts.PadAppend | baba_text/animated_text.py:54-56 | padding newlines and tabs in a joined text pads each part |
| Texts.TokenizeEmpty | baba_text/animated_text.py:50-59 | the empty text has no token |
| Texts.TokenizeWord | baba_text/animated_text.py:50-59 | a non-empty word without spaces, newlines or tabs is a single token, itself |
| Texts.TokenizeSpace | baba_text/animated_text.py:50-59 | a space separates tokens: the tokens of `a + " " + b` are those of `a`, then those of `b`, however many spaces either side holds |
| Texts.TokenizeNewline | baba_text/animated_text.py:50-59 | a newline is a token of its own whatever surrounds it: the tokens of `a + "\n" + b` are those of `a`, the newline, then those of `b` |
| Texts.TokenizeNewlineStart | baba_text/animated_text.py:50-59 | a leading newline is the first token |
| Texts.TokenizeNewlineEnd | baba_text/animated_text.py:50-59 | a trailing newline is the last token |
| Texts.GenerateWordLayout | baba_text/animated_text.py:99-117 | one fresh `SPRITE_SIZE` square per word, on the cell the cursor reached |
| Texts.OneCellPerWord | baba_text/animated_text.py:99-117 | exactly one cell per word token, so `zip(words, layout)` drops nothing |
| Texts.CellsInReadingOrder | baba_text/animated_text.py:99-117 | every cell lies at or after the cursor, and the cells come in strict reading order |
| Texts.CellsNonNegative | baba_text/animated_text.py:99-117 | a cursor starting at the top left only reaches cells with non-negative coordinates |
| Texts.CellOfPixel | baba_text/animated_text.py:113 | the pixel row and column covered by a square determine its cell |
| Texts.LayoutDisjoint | baba_text/animated_text.py:99-117 | no pixel lies in the squares of two words |
| Texts.NewlineExample | baba_text/animated_text.py:104-107 | a newline starts the next row at column 0, so an empty line leaves a row free |
| Texts.TabExample | baba_text/animated_text.py:108-110 | a tab leaves one cell of the row free |
| Texts.NewlineTestLayout | tests/test_layout.py:10-13 | the text of the newline test, with its one-letter words left open as any words: the words of row 1 take columns 0 to 2, those of row 2 columns 0 and 1, the spaced word of row 3 column 0, the empty line leaves row 4 free, and the last two words take rows 5 and 6 |
| Texts.NewlineTestTokens | tests/test_layout.py:11 | that text tokenizes to each newline alone and each word as a token, in order |
| Texts.NewlineTestCells | baba_text/animated_text.py:99-117 | the layout of those tokens: the cells listed in the newline test's row above |
| Texts.CellsWord | baba_text/animated_text.py:112-115 | a word takes the cell under the cursor and moves it one column right |
| Texts.CellsNewline | baba_text/animated_text.py:104-107 | a newline takes no cell and moves the cursor to column 0 of the next row |
| Texts.Max | baba_text/animated_text.py:34-37 | `max` of a non-empty sequence: an element that no element exceeds |
| Texts.CanvasSize | baba_text/animated_text.py:33-37 | ValueError exactly when there are no boxes; otherwise the smallest canvas holding every box, reached by some box on each side |
| Texts.Rights | baba_text/animated_text.py:35 | the right edge of every box, in order |
| Texts.Bottoms | baba_text/animated_text.py:36 | the bottom edge of every box, in order |
| Texts.LookupColorInPalette | baba_text/animated_text.py:124-129 | the lookup colour is a palette colour or white |
| Texts.WordColorChoice | baba_text/animated_text.py:130-133 | a capitalised word gets the background as text colour and the lookup colour as tile colour; any other word gets them the other way round |
| Texts.WordColorExamples | baba_text/animated_text.py:123-133 | "baba" and "is" get their table colour as text colour on the background |
| Texts.CapitalWordColorExample | baba_text/animated_text.py:130-131 | "You" gets its table colour as tile colour |
| Texts.WordHashAppend | baba_text/animated_text.py:119-121 | the hash of two joined words is the sum of their hashes |
| Texts.WordCalls | baba_text/animated_text.py:39-44 | `zip` pairs word k with box k and that word's two colours, and stops at the shorter list |
| Texts.WordsGetTheirCells | baba_text/animated_text.py:39-44 | there are exactly as many squares as words, so every word gets its own square |
| Texts.SpriteBoxes | baba_text/animated_text.py:113 | the `SPRITE_SIZE` square of each cell, in order |
| Texts.StepOnceMore | baba_text/animated_text.py:64-73 | one more step of a cursor adds one to its count of steps |
| Texts.LayoutFitsCanvas | baba_text/animated_text.py:33-37 | every square of the layout lies on the canvas, which is at least one square wide and high |
| Texts.Prepare | baba_text/animated_text.py:28-37 | an empty text fails with "Text must not be empty", and a text without words fails with ValueError; otherwise the tokens and their layout on its canvas |
| Texts.LayOut | baba_text/animated_text.py:33-37 | ValueError exactly when no token is a word; otherwise the layout of the tokens on the smallest canvas |
| Texts.AnimatedText.constructor | baba_text/animated_text.py:28-44 | the text holds its tokens, background, canvas size and words |
| Texts.AnimatedText.GifDisposal | baba_text/animated_text.py:92-94 | frames are disposed of as transparent exactly when the background is not fully opaque |
| Texts.AnimatedText.WriteRawFrames | baba_text/animated_text.py:61-77 | `ANIMATION_FRAME_COUNT` fresh, distinct frames of the canvas size; frame f is the background colour with every word's tile and then its letters painted over it, word by word, each showing the sprite `shown[f]` records; `shown[0]` holds the cursors before the call, every tile and letter steps once from one frame to the next and once after the last, `ANIMATION_FRAME_COUNT` steps in all; pixels no word covers stay the background colour |
| Texts.AnimatedText.RenderFrames | baba_text/animated_text.py:61-77 | the frame loop gives `ANIMATION_FRAME_COUNT` fresh, distinct frames; each shows the cursors recorded for it, the records start from the cursors before the loop and lie one step apart, and one step follows the last |
| Texts.AnimatedText.RenderNext | baba_text/animated_text.py:64-75 | one turn of the loop: a fresh frame that shows every word at the cursors the objects had, after which every object has stepped once more |
| Texts.AnimatedText.FramesShowAppend | baba_text/animated_text.py:75 | appending a frame that shows its cursors keeps every frame showing its own record |
| Texts.AnimatedText.FramesShowEach | baba_text/animated_text.py:64-75 | every frame has the canvas size and holds, pixel by pixel, the picture of its record over the background colour |
| Texts.AnimatedText.ShownStepsEach | baba_text/animated_text.py:64-75 | the records start at the cursors before the loop, lie one step apart, and the objects are one step past the last record and `|shown|` steps past the start |
| Texts.AnimatedText.RecordCursors | baba_text/animated_text.py:64-73 | recording the cursors the objects have extends the records, and they are `|shown|` steps past the start |
| Texts.AnimatedText.RecordedAppend | baba_text/animated_text.py:64-73 | a record one step past the last one, or the start itself for the first, extends the records |
| Texts.AnimatedText.SteppedSinceRecord | baba_text/animated_text.py:73 | once every object has stepped from the last record, the objects are one step past it and `|shown| + 1` steps past the start |
| Texts.AnimatedText.RenderFrame | baba_text/animated_text.py:66-75 | a fresh frame of the canvas size on which every pixel is the picture of all tiles and letters, in order, at the cursors before the call, over the background colour; pixels no word covers are the background; every object steps once |
| Texts.AnimatedText.PaintFrame | baba_text/animated_text.py:71-73 | every pixel ends as the frame's picture painted over the colour it had; pixels no word covers keep it; every object steps once |
| Texts.AnimatedText.PaintingStarts | baba_text/animated_text.py:71-73 | before the first word nothing is painted and no object has stepped |
| Texts.AnimatedText.PaintingEnds | baba_text/animated_text.py:71-73 | after the last word the screen is the whole frame's picture over what it held, pixels no word covers are unchanged, and every object has stepped once |
| Texts.AnimatedText.PaintWord | baba_text/animated_text.py:72 | drawing word k over the first k words' picture gives the first k + 1 words' picture; no cursor moves |
| Texts.AnimatedText.DrawnNext | baba_text/animated_text.py:72 | word k's picture painted over the first k words' picture is the picture of the first k + 1 words |
| Texts.AnimatedText.StepWord | baba_text/animated_text.py:73 | word k's tile and letters step once; the screen and every other object are unchanged |
| Texts.AnimatedText.DrawWord | baba_text/animated_text.py:72 | every pixel ends as word k's tile and then its letters, at their cursors, painted over the colour it had |
| Texts.AnimatedText.AdvanceWord | baba_text/animated_text.py:73 | word k's tile and letters step once, and the other words keep their cursors |
| Texts.PrefixObjects | baba_text/animated_text.py:71-73 | the tiles and letters of the first k + 1 words are those of the first k and word k's, which no earlier word shares |
| Texts.FramePrefix | baba_text/animated_text.py:71-72 | the picture of the first k + 1 words is the first k words' picture followed by word k's |
| Texts.FrameLayersOwned | baba_text/animated_text.py:71-72 | every tile and letter a frame draws belongs to the text |
| Texts.WordShowable | baba_text/animated_text.py:72 | a valid word whose cursors are recorded can show its tile and every letter |
| AsciiArt.DurationOf | src/baba_text/animated_ascii_art.py:61-63 | the frame's own duration, or `1000 / ANIMATION_FPS` when it has none |
| AsciiArt.DownsampleSize | src/baba_text/animated_ascii_art.py:70-80 | the number of whole blocks of `ppc` pixels that fit across and down the picture |
| AsciiArt.Ceil | src/baba_text/animated_ascii_art.py:88 | the smallest integer at or above the argument |
| AsciiArt.CeilMonotone | src/baba_text/animated_ascii_art.py:88 | `ceil` never reverses the order of two numbers |
| AsciiArt.Luminance | src/baba_text/animated_ascii_art.py:84-86 | a grey value in [0, 255], and 0 for a fully transparent pixel |
| AsciiArt.RampIndex | src/baba_text/animated_ascii_art.py:87-89 | always a valid index of the ramp |
| AsciiArt.RampIndexMonotone | src/baba_text/animated_ascii_art.py:84-89 | a brighter pixel never picks an earlier character of the ramp |
| AsciiArt.PixelToAscii | src/baba_text/animated_ascii_art.py:82-89 | a character of the ramp, and the first one for a transparent pixel |
| AsciiArt.PixelToAsciiEnds | src/baba_text/animated_ascii_art.py:82-89 | opaque white picks the last character and opaque black the first |
| AsciiArt.AvailableLetters | src/baba_text/animated_ascii_art.py:94-103 | one letter for each ramp character other than the space, in the default box and colours |
| AsciiArt.NextState | src/baba_text/animated_ascii_art.py:128-145 | a space keeps the cell's state; a letter replaces it with what its `advance_animation` returns |
| AsciiArt.CellCall | src/baba_text/animated_ascii_art.py:131-145 | the letter of cell (x, y) goes to (y*H, x*H), takes the pixel's colour unless the art is greyscale, and advances from the cell's state |
| AsciiArt.GridCallsWithin | src/baba_text/animated_ascii_art.py:126-145 | the calls of the first x rows are for cells of those rows |
| AsciiArt.RowCallsWithin | src/baba_text/animated_ascii_art.py:127-145 | the calls of the first y cells of a row are for those cells |
| AsciiArt.GridCallsAreCellCalls | src/baba_text/animated_ascii_art.py:126-145 | every call is the call of its own cell, and that cell is not a space |
| AsciiArt.RowCallsAreCellCalls | src/baba_text/animated_ascii_art.py:127-145 | the same within one row |
| AsciiArt.GridCallsOrdered | src/baba_text/animated_ascii_art.py:126-145 | the calls come in strict row-major order, so no cell is drawn twice |
| AsciiArt.RowCallsOrdered | src/baba_text/animated_ascii_art.py:127-145 | the same within one row |
| AsciiArt.GridCallsComplete | src/baba_text/animated_ascii_art.py:126-145 | every cell that is not a space has a call |
| AsciiArt.RowCallsComplete | src/baba_text/animated_ascii_art.py:127-145 | the same within one row |
| AsciiArt.NextStates | src/baba_text/animated_ascii_art.py:126-145 | the states after a picture have the grid's shape |
| AsciiArt.NextRow | src/baba_text/animated_ascii_art.py:127-145 | a row of states keeps its length |
| AsciiArt.NextStatesCells | src/baba_text/animated_ascii_art.py:143-145 | cell by cell, the next state is `NextState` of the cell's character and state |
| AsciiArt.NextRowCells | src/baba_text/animated_ascii_art.py:143-145 | the same within one row |
| AsciiArt.AsciiOf | src/baba_text/animated_ascii_art.py:112 | the character grid has the picture's shape |
| AsciiArt.AsciiRow | src/baba_text/animated_ascii_art.py:112 | a row of characters has the row's length |
| AsciiArt.AsciiOfCells | src/baba_text/animated_ascii_art.py:112 | cell by cell, the character is the ramp character of the pixel |
| AsciiArt.AsciiRowCells | src/baba_text/animated_ascii_art.py:112 | the same within one row |
| AsciiArt.AnimatedAsciiArt.constructor | src/baba_text/animated_ascii_art.py:32-49 | the art holds its options, pictures and durations |
| AsciiArt.AnimatedAsciiArt.Create | src/baba_text/animated_ascii_art.py:32-79 | an empty ramp or a non-positive block size fails the assertion; a picture narrower or lower than one block fails with ValueError, because it would resize to no pixels; otherwise one picture and its own duration per frame, or one still picture repeated `ANIMATION_FRAME_COUNT` times with the default duration, every buffer at least one pixel wide and high |
| AsciiArt.AnimatedAsciiArt.Downsample | src/baba_text/animated_ascii_art.py:57-68 | one fresh buffer holding each frame's downsampled picture, with that frame's duration; a still picture gives one buffer repeated `ANIMATION_FRAME_COUNT` times with the default duration |
| AsciiArt.AnimatedAsciiArt.GifDisposal | src/baba_text/animated_ascii_art.py:164-166 | frames are disposed of as transparent exactly when the background is not fully opaque |
| AsciiArt.AnimatedAsciiArt.Art | src/baba_text/animated_ascii_art.py:112 | every picture's character grid has the shape of the first picture |
| AsciiArt.RunCalls | src/baba_text/animated_ascii_art.py:107-149 | one list of letter calls per picture of the run |
| AsciiArt.StatesAfter | src/baba_text/animated_ascii_art.py:107-145 | the animation states after any run of pictures keep the grid's shape |
| AsciiArt.RunCallsSplit | src/baba_text/animated_ascii_art.py:107-149 | drawing the pictures in two parts, the second starting from the states the first leaves, makes the same calls as drawing them at once: the states are carried from picture to picture |
| AsciiArt.RunCallsAt | src/baba_text/animated_ascii_art.py:109-147 | entry g of the run is picture g's calls, its non-space cells in row-major order, drawn from the states the pictures before it left |
| AsciiArt.RunCallsLetters | src/baba_text/animated_ascii_art.py:109-131 | every call of every picture draws a ramp character other than the space |
| AsciiArt.AnimatedAsciiArt.WriteRawFrames | src/baba_text/animated_ascii_art.py:91-149 | one fresh frame per picture, of rows*H by cols*H pixels in the background colour, and the calls are exactly the run of all the pictures from the initial states |
| AsciiArt.AnimatedAsciiArt.DrawFrames | src/baba_text/animated_ascii_art.py:107-147 | the picture loop makes exactly the calls of the run of all the pictures from the initial states |
| AsciiArt.AnimatedAsciiArt.DrawFrame | src/baba_text/animated_ascii_art.py:110-147 | the calls of picture f, the states move on to those after picture f, and the calls so far followed by the rest of the run are still the whole run |
| AsciiArt.AnimatedAsciiArt.CallsHaveLetters | src/baba_text/animated_ascii_art.py:94-131 | every call's letter is a ramp character other than the space, so the lookup in `available_letters` never fails |
| AsciiArt.ToAscii | src/baba_text/animated_ascii_art.py:112 | a fresh grid holding, cell by cell, the character grid `AsciiOf` of the picture the image holds |
| AsciiArt.DrawCells | src/baba_text/animated_ascii_art.py:126-145 | the cell loop makes exactly the calls of the grid, and the states become `NextStates` of the grid |
| AsciiArt.DrawRow | src/baba_text/animated_ascii_art.py:127-145 | one row makes exactly that row's calls and advances only that row's states |
| AsciiArt.BlankScreens | src/baba_text/animated_ascii_art.py:119-123 | fresh screens of the given size with every pixel in the background colour |
| AsciiArt.Repeat | src/baba_text/animated_ascii_art.py:65-68 | `[x] * n`: n entries, every one of them x |
| AsciiArt.StatesFrom | src/baba_text/animated_ascii_art.py:107 | a fresh state grid holding the initial states |
| Bot.SplitOn | bot.py:71 | the split always has at least one piece |
| Bot.ReplaceIsSplitJoin | bot.py:71 | `s.replace(p, r) == r.join(s.split(p))` |
| Bot.SplitFirstIsPrefix | bot.py:71 | the first piece of the split is a prefix of the string |
| Bot.SplitFirstAvoidsPattern | bot.py:71 | the pattern does not occur in the first piece |
| Bot.SplitPiecesAvoidPattern | bot.py:71 | no piece contains the pattern: every occurrence was replaced |
| Bot.ReplaceWithItself | bot.py:71 | replacing a pattern with itself changes nothing |
| Bot.SplitJoinRoundTrip | bot.py:71 | `p.join(s.split(p)) == s`: splitting loses nothing |
| Bot.ReplaceAllAbsent | bot.py:71 | a string without the pattern is returned unchanged |
| Bot.ReplaceAllShortens | bot.py:71 | a replacement no longer than its pattern never lengthens the string |
| Bot.PreprocessMessage | bot.py:69-72 | the loop applies the five replacements in list order |
| Bot.ApplyReplacementsAbsent | bot.py:69-72 | a string with none of the patterns goes through unchanged |
| Bot.UnescapeUnchanged | bot.py:35-42 | a message with none of the five escape sequences is returned unchanged |
| Bot.ApplyReplacementsShortens | bot.py:69-72 | replacements no longer than their patterns never lengthen the string |
| Bot.UnescapeShortens | bot.py:35-42 | unescaping never lengthens a message |
| Bot.UnescapeInOrder | bot.py:69-72 | unescaping is the five replacements in turn, "\\n" first |
| Bot.UnescapeLineBreakExample | bot.py:36 | an escaped line break becomes a line break |
| Bot.UnescapeSmileExample | bot.py:40 | the garbled smile becomes ":)" |
| Bot.NoBackslashUnchanged | bot.py:36-38 | a pattern starting with a backslash leaves a string without backslashes alone |
| Bot.FirstDisallowed | bot.py:179-188 | nothing exactly when every character is allowed; otherwise the first character that is not |
| Bot.CheckMessage | bot.py:178-188 | the unescaped message is accepted exactly when all its characters are allowed; otherwise it is refused for its first disallowed character |
| Bot.LongerSide | bot.py:98 | `max(width, height)` |
| Bot.PixelsPerCharacter | bot.py:97-103 | at least 1; exactly 1 up to 64 pixels; above that, the smallest block size whose 64 blocks cover the longer side |
| Bot.ArtFitsMaxDimension | bot.py:97-103 | the downsampled picture has at most 64 cells along each side |

## Left out

- Decoding and resizing pictures with PIL, `glob` over the resource directory, and GIF encoding with imageio are not modelled. Decoded and resized pictures are inputs given as rows of pixels. The glob result is a list of basenames. The GIF writer is reduced to its disposal choice.
- The Discord interface of `bot.py` is not modelled: commands, dialogs, follow-up messages, worker processes, queues and timeouts, token loading and logging. `main.py` is not modelled either. Only the message preprocessing, the character check and the block size are.
- Floating point is modelled as exact reals. Rounding effects of binary floating point in the layout and luminance arithmetic are not captured.
- `str.upper` and `str.lower` are modelled on the ASCII letters only. Other characters are treated as having no case.
- Bot.ReplaceAll: only non-empty patterns are modelled, which covers every pattern the bot uses. `str.replace` with an empty pattern is not modelled.
- Randomness is a parameter or a nondeterministic choice. The offset `randint` picks in `advance_animation` is any allowed offset. The initial states from `np.random.randint` are the `initial` parameter of `AsciiArt.AnimatedAsciiArt.WriteRawFrames`.
- The ASCII-art renderer uses a letter API that is not part of this model: the `location` and `foreground_color` setters, `draw`, and an `advance_animation(state)` that returns the next state. Each cell is therefore recorded as a `Call`, and the next state is the `advance` parameter. The letter pixels are not drawn onto the frames. AsciiArt.AnimatedAsciiArt.WriteRawFrames states the frames' size and background fill, and the exact sequence of calls, rather than the final pixels. Because nothing is drawn onto the screens, the model allocates them all after the picture loop instead of one per iteration. The order of allocation is not observable in the model.
- Constants the ASCII-art module imports but that are not part of this model are parameters. These are `RESOURCE_LETTER_WIDTH`, `RESOURCE_LETTER_HEIGHT`, `FULL_ALPHA`, `TRANSPARENT_COLOR` and the default ramp of `generate_ascii_color_ramp`. `COLOR_PALETTE["grey"]` is the `grey` parameter of `AsciiArt.AvailableLetters`, because the palette in baba_text/constants.py has `"gray"` and no `"grey"`.
- AsciiArt.AnimatedAsciiArt.Create takes the frames of the picture with one size for all of them. It requires at least one frame, which PIL always delivers.
- Texts.WordCalls: `AnimatedText` is modelled up to the arguments it hands to each `AnimatedWord`. Building the words is `Words.AnimatedWord.Create`, and `Texts.AnimatedText` takes the built words.
- Texts.Prepare: the message of the `ValueError` from `max` of an empty sequence depends on the Python version. It is a fixed constant here.
- Texts.AnimatedText.WriteRawFrames, AnimatedObjects.AnimatedObject.Draw and Words.AnimatedWord.Draw require every tile and letter rectangle to lie inside the surface (`Placed`, `FitsIn`). numpy's slice assignment, which fails or clips a rectangle that sticks out, is not modelled. Texts.LayoutFitsCanvas proves that every word square lies on the canvas, and Words.CellInsideBox proves that each unrounded letter rectangle lies inside its box. The rounded letter rectangles are not shown to lie inside, and nothing derives `Placed` from Texts.Prepare and Words.AnimatedWord.Create.
- Constants.DEFAULT_ALPHA: the alpha of 255 that a three-argument `Color(r, g, b)` takes is a constant, because color.py is not part of this model.
- AsciiArt.AnimatedAsciiArt.Create: the message of the `ValueError` that the image library raises for a resize to no pixels is a fixed constant, `EMPTY_RESIZE_MESSAGE`.
- Bot.CheckMessage takes the allowed set as a parameter; `Constants.GetAllowedCharacters` computes it. The error reply sent to the user is not modelled.
