# LSB steganography core of `new.py`, in Dafny

`new.py` hides a text message in an image by writing it into the least
significant bit (LSB) of the colour values.

- **`text_to_binary`** turns each character into the 8-bit big-endian binary of its code point.
- **`hide_message`** zero-pads those bits up to the capacity, one bit per colour value in `pixels[..., :3]`. It clears the LSB of every colour value and ORs the bits in. The order is row-major over pixels, then channel 0, 1, 2 within each pixel.
- **`extract_message`** does the reverse:
  - It reads the colour LSBs back in the same order.
  - It zero-pads them to a whole number of bytes and decodes each 8-bit group to a character.
  - It strips trailing NUL characters, which act as the end-of-message sentinel.

This project models that core and proves its properties. The modules follow its three parts:

- **`BitCodec`** (`bitcodec.dfy`): the bit codec.
  - The big-endian numerals `NatToBits` and `BitsToNat`.
  - `TextToBinary`, the group decoder `DecodeGroups` and `rstrip('\x00')` as `StripTrailingNuls`.
  - Their round-trip lemmas.
- **`Layout`** (`layout.dfy`): the pixel array.
  - The numpy `uint8` array is a flat `array<bv8>` in C order, described by `Shape(height, width, channels)`.
  - Scan order is bijective. Flat index `ScanPos` maps to scan position, and `ColourIndex` maps back.
- **`Embedder`** (`embedder.dfy`): the pixel-level part of `hide_message`.
  - `PadToCapacity` models `np.pad`. Its `NegativePadWidth` result is the `ValueError` that a negative width raises.
  - Line 18 (`&=`) and line 19 (`|=`) are two in-place methods. Each loops over the pixels and, inside, over the colour channels.
  - `HideMessage` composes the two. It is proved against the value-level specification `Embedded`.
- **`Extractor`** (`extractor.dfy`): the decode part of `extract_message`, as pure functions.
- **`RoundTrip`** (`roundtrip.dfy`): the properties that link embedding and extraction. These are the round trip, the loss of a trailing NUL, and the worked example "Hi" in a 4 x 4 RGB array.

Some modelling decisions:

- Colour channels are the first `min(channels, 3)` channels of each pixel, which is exactly what `pixels[..., :3]` selects in a three-dimensional array. Capacity is `height * width * min(channels, 3)`, which is `height * width * 3` for RGB and RGBA (`Layout.CapacityOfColourImage`).
- A bit is an `int` in 0..1. A channel value is a `bv8`, so "stays in 0..255" holds by its type.
- Text is restricted to code points 0..255 (`IsByteText`) by precondition.

Two points where the code's behaviour is easy to mistake:

- No error is raised for a code point above 255: `format(ord(c), '08b')` simply writes more than 8 bits. The model leaves such text out by precondition rather than modelling the longer codes.
- A final partial group of bits is never discarded: lines 35-36 pad the bits with zeros up to a multiple of 8, and the padded group is decoded. The model does the same (`Extractor.PadToByteBoundary`), so `BitCodec.DecodeGroups` is only ever applied to whole bytes.

## Model

| member | source | states |
|---|---|---|
| BitCodec.NatToBits | new.py:6 | the `'08b'` numeral of a code point has exactly the requested number of digits |
| BitCodec.NatToBitsAt | new.py:6 | digit j of the w-digit numeral of n is bit w-1-j of n (big-endian layout) |
| BitCodec.BitsToNatOfNatToBits | new.py:6 | `int(format(n, '0wb'), 2) == n` whenever n < 2^w |
| BitCodec.BitsToNat | new.py:39 | `int(group, 2)` of a w-digit group is below 2^w |
| BitCodec.BitsToNatSnoc | new.py:39 | appending a digit d to a numeral doubles its value and adds d |
| BitCodec.NatToBitsOfBitsToNat | new.py:39 | rewriting a group's value with as many digits gives the group back, so a group is determined by its value |
| BitCodec.TextToBinary | new.py:5-7 | text_to_binary of byte text has length 8 x the text's length |
| BitCodec.TextToBinaryBlock | new.py:6 | bits 8i..8i+7 of text_to_binary(t) are the 8-bit big-endian numeral of ord(t[i]) |
| BitCodec.ByteToChar | new.py:39 | chr(n) for n < 256 is the byte character with code point n |
| BitCodec.GroupToCharOfCode | new.py:6 | chr(int(format(ord(c), '08b'), 2)) == c for every byte character c |
| BitCodec.GroupToChar | new.py:39 | `chr(int(g, 2))` of an 8-bit group is a byte character whose 8-bit code is g again |
| BitCodec.DecodeGroups | new.py:39 | the comprehension gives one character per 8-bit group, each a byte character; group i's character is in `DecodeGroupsAppendLeft`/`Right`, `DecodeCharAt` and `DecodeZeros` |
| BitCodec.DecodeCharAt | new.py:39 | group i of text_to_binary(t) decodes to t[i] |
| BitCodec.DecodeOfTextToBinary | new.py:39 | decoding the 8-bit groups of text_to_binary(t) gives t back exactly |
| BitCodec.TextToBinaryInjective | new.py:5-7 | two byte texts with the same bitstream are equal |
| BitCodec.DecodeGroupsAppend | new.py:39 | decoding distributes over concatenation at a byte boundary |
| BitCodec.DecodeGroupsAppendLeft | new.py:39 | a group inside a decodes the same way inside a + b |
| BitCodec.DecodeGroupsAppendRight | new.py:39 | group j of b is decoded as group len(a) / 8 + j of a + b |
| BitCodec.DecodeZeros | new.py:39 | 8n zero bits decode to n NUL characters, so padding decodes as the sentinel |
| BitCodec.CodeOfCapitalH | new.py:6 | 'H' (72) is written 01001000 |
| BitCodec.CodeOfSmallI | new.py:6 | 'i' (105) is written 01101001 |
| BitCodec.TextToBinaryOfHi | new.py:5-7 | text_to_binary("Hi") is 01001000 01101001 |
| BitCodec.StripTrailingNuls | new.py:42 | rstrip('\x00') gives a prefix of its input that is empty or does not end in NUL, and everything it removes is NUL |
| BitCodec.StripNulsOfPadded | new.py:42 | stripping removes exactly the NULs appended to a text that does not end in NUL |
| BitCodec.StripNulsLosesTrailingNul | new.py:42 | for a text ending in NUL, stripping the padded text equals stripping the text itself, which is strictly shorter |
| Layout.Shape.Colours | new.py:17 | `pixels[..., :3]` selects at most 3 channels of a pixel, and no more than it has |
| Layout.Shape.Capacity | new.py:17 | `pixels[..., :3].size` is at most the size of the whole array |
| Layout.Lsb | new.py:32 | `v & 1` is the bit that, put back below the upper seven bits `v & 0b11111110`, gives v again |
| Layout.Shape.ScanPos | new.py:19 | the scan position of a colour value lies below the capacity |
| Layout.Shape.ColourIndex | new.py:32 | every scan position below the capacity belongs to a colour value of the array, whose scan position it is |
| Layout.ScanOrderBijective | new.py:19 | mapping a colour value to its scan position and back gives the same flat index |
| Layout.PixelChannelPos | new.py:19 | channel ch of pixel p is a colour value iff ch < min(channels, 3), and then its scan position is p x min(channels, 3) + ch |
| Layout.CapacityOfColourImage | new.py:17 | with three or more channels, the capacity `pixels[..., :3].size` is height x width x 3 |
| Embedder.PadToCapacity | new.py:17 | np.pad succeeds iff the message fits the capacity; then the result has the capacity's length, starts with the message bits and is 0 after them |
| Embedder.ReplaceLsb | new.py:18-19 | (v & 0b11111110) \| b has LSB b, keeps the upper seven bits of v and differs from v by at most 1 |
| Embedder.ClearedLsbs | new.py:18 | after the AND with 0b11111110 every colour value has LSB 0 and keeps its upper bits; every other channel is unchanged |
| Embedder.OredBits | new.py:19 | after the OR with the padded bits, a colour value's LSB is 1 if it was 1 and otherwise the bit at its scan position, and its upper bits are kept; every other channel is unchanged |
| Embedder.Embedded | new.py:18-19 | after both steps every colour value has as LSB the bit at its scan position and keeps its upper bits; every other channel is unchanged |
| Embedder.EmbeddedColourValue | new.py:18-19 | after embedding, the k-th colour value in scan order is (old & 0b11111110) \| bit k |
| Embedder.EmbeddedValues | new.py:18-19 | after embedding, a colour value keeps its upper bits and has as LSB the bit of its scan position; channels 3 and up are unchanged; no value moves by more than 1 |
| Embedder.NonColourChannels | new.py:18-19 | channels 3 and up of a pixel lie outside `pixels[..., :3]` |
| Embedder.ClearPixelLsbs | new.py:18 | the colour values of one pixel have their LSB cleared, and every other value is unchanged |
| Embedder.ClearColourLsbs | new.py:18 | after the loop, every colour value has its LSB cleared and every other value is unchanged |
| Embedder.OrPixelBits | new.py:19 | the colour values of one pixel are ORed with the bits at their scan positions, and every other value is unchanged |
| Embedder.OrColourBits | new.py:19 | after the loop, every colour value is ORed with the bit at its scan position and every other value is unchanged |
| Embedder.HideMessage | new.py:10-19 | succeeds iff 8 x len(message) <= capacity; on failure no value has changed; on success the array is the old one with the padded bitstream written into the colour LSBs |
| Extractor.ColourLsbs | new.py:32 | `(pixels[..., :3] & 1).flatten()` has one bit per unit of capacity, and the bit at a colour value's scan position is that value's LSB |
| Extractor.PadToByteBoundary | new.py:35-36 | the padded bits are a multiple of 8 long, start with the input, add fewer than 8 bits and add only zeros |
| Extractor.PadIsMinimal | new.py:35-36 | every multiple of 8 that covers the bits is at least the padded length, so the padded length is the smallest such multiple |
| Extractor.ExtractMessage | new.py:32-42 | the extracted text never ends in NUL and has at most (capacity + 7) / 8 characters |
| Extractor.ExtractDependsOnlyOnColourLsbs | new.py:32 | two arrays that agree on their colour LSBs extract the same text |
| RoundTrip.Payload | new.py:17 | the bitstream written for t is text_to_binary(t) followed by zeros up to the capacity |
| RoundTrip.ColourLsbsOfEmbedded | new.py:19 | extraction reads back exactly the bitstream that embedding wrote |
| RoundTrip.PaddingLsbsAreZero | new.py:17-19 | every colour LSB at a scan position at or past the message's bit length is 0 after embedding |
| RoundTrip.ExtractedBits | new.py:35-36 | after embedding t, the byte-padded colour LSBs are text_to_binary(t) followed by whole zero bytes |
| RoundTrip.ExtractAfterEmbed | new.py:32-42 | a byte text that fits the capacity and does not end in NUL is extracted exactly |
| RoundTrip.TrailingNulIsLost | new.py:42 | a text ending in NUL comes back as the text with its trailing NULs stripped, strictly shorter |
| RoundTrip.HideThenExtract | new.py:9-46 | hide_message then extract_message on the same array: the message comes back exactly when it fits and does not end in NUL; an oversized message is refused and the array keeps its values |
| RoundTrip.HiInFourByFour | new.py:17-19 | "Hi" in a 4 x 4 x 3 array gives colour LSBs 01001000 01101001 followed by 32 zeros, and extracts as "Hi" |

## Left out

- Image file I/O (`Image.open`, `Image.fromarray`, `.save`). `HideMessage` and `ExtractMessage` work on the already decoded pixel array, and `HideMessage` leaves the array updated in place instead of saving it.
- The `print` calls: they are console output only.
- `visualize_difference`: it is file I/O around a numpy elementwise difference, which wraps modulo 256 for `uint8`. `Embedder.EmbeddedValues` states the per-value change instead.
- `calculate_psnr`: it is floating-point numerics.
- The module-level example usage with fixed paths, and the unused `compare_ssim` import.
- Characters with code point above 255 are excluded by precondition (`IsByteText`). For them `format(ord(c), '08b')` writes more than 8 bits and the 8-bit layout no longer holds.
- Two-dimensional (grayscale) arrays are not modelled: there `pixels[..., :3]` slices the width axis rather than the channels. A `Shape` always has a channel axis with at least one channel.
- Embedder.HideMessage: the `&=` and `|=` on lines 18-19 are numpy bulk operations. Here each is a loop in scan order. The result is the same, but nothing is said about how numpy orders the writes.
- BitCodec.DecodeGroups: requires a length that is a multiple of 8, because the code only decodes after padding to whole bytes. Decoding a bitstream whose length is not a multiple of 8 is therefore not modelled.
- Idempotence of extraction is not stated as a lemma: `ExtractMessage` is a function of the array, so extracting twice gives the same text by definition.
