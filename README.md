# DCF77 encoder and minute buffer, in Dafny

DCF77.js is a browser script that imitates the DCF77 time signal. It plays a
sine tone whose amplitude dips at the start of every second. A short dip (a
tenth of a second) is a 0 bit, a long dip (a fifth) is a 1 bit, and the
last second of the minute has no dip at all. The script has two parts:

- `generateMinute` turns the time of a minute into a 60-character frame of
  '0', '1' and the end marker '-'. The time is UTC + 1 hour: `createMinute`
  adds one hour to the UTC fields and never a second one, so the fields are
  CET all year, even while bit 17 announces summer time. It uses `binary`, `reverse`,
  `concat`, `bcd` and `evenParity`.
- `createSecond` and `createMinute` build the audio: one-second templates
  `ZERO`, `ONE` and `END`, copied slot by slot into a buffer of
  `sampleRate * 60` samples. `start` plays that buffer from the current
  second.

This project models both parts and proves what they promise:

- `bits.dfy` (module `Bits`) holds the string helpers. Bit strings are least
  significant bit first. The module also holds the reading of a bit string
  back into a number, and proves that `binary` and `bcd` round-trip and that
  the parity bit is correct.
- `frame.dfy` (module `Frame`) holds the civil-time record and
  `generateMinute`. It proves the position of every field in the frame. It
  also gives a receiver-side decoder and proves both directions of the
  round trip: decoding a generated frame yields its time, and the only
  frame a receiver accepts as time t is the generated one.
- `synth.dfy` (module `Synth`) holds `createSecond` and `createMinute` as
  methods over arrays with loop invariants, and the start-offset slice of
  `start`. Sample values are abstract: `tone(i)` stands for the sine sample
  at index i.

Facts about the code the model follows:

- The frame is 60 characters long. Indices 0..58 are bits, and the only
  '-' is at index 59.
- The date parity bit (index 58) covers exactly the 22 date bits
  (6 + 3 + 5 + 8).
- `END` is built with `ampMod = 0`, so it has no silent samples: the last
  second is tone throughout.
- The weekday is `getDay()`, so Sunday is sent as 0. The DCF77 format
  itself numbers Monday 1 to Sunday 7.

The model's precondition on the year, 2000..2099, comes from the year field
`getFullYear() - 2000` with 8 BCD bits. The code does not check it. For
2100..2159 the tens "digit" 10..15 is sent as 4 binary bits that are not a
decimal digit. From 2160 on, the year field grows to 9 bits and the frame to
61 characters, because `concat` with -1 is empty. From 2320 on, `concat`
throws.

## Model

| member | source | states |
|---|---|---|
| Bits.Repeat | demo/script/DCF77.js:29-31 | `concat(input, n)` is the character repeated n times: the result has length n, and `RepeatAt` gives each position |
| Bits.Reverse | demo/script/DCF77.js:41-46 | `reverse(s)` keeps the length; `ReverseAt` gives each position |
| Bits.RepeatAt | demo/script/DCF77.js:29-31 | every position of `concat(c, n)` holds c |
| Bits.ReverseAt | demo/script/DCF77.js:41-46 | `reverse(s)` holds at position i the character at position `|s|-1-i` of s |
| Bits.Radix2 | demo/script/DCF77.js:49 | `toString(2)` is a non-empty numeral that reads back as v most-significant first, with no leading zero |
| Bits.Radix2Length | demo/script/DCF77.js:49-50 | the numeral of v fits n digits exactly when v < 2^n, both directions |
| Bits.LsbOfReverse | demo/script/DCF77.js:50 | reversing a numeral turns its most-significant-first value into its least-significant-first value |
| Bits.LsbOfZeroPadded | demo/script/DCF77.js:50 | padding with '0' on the right does not change the value |
| Bits.Binary | demo/script/DCF77.js:48-51 | `binary(v, size)` has length size, or size + 1 when the numeral is one digit longer (`concat` with -1 is empty). It reads back as v. The precondition is exactly the case where `concat` does not throw |
| Bits.BinaryBits | demo/script/DCF77.js:48-51 | `binary` yields only '0' and '1' |
| Bits.BinaryExact | demo/script/DCF77.js:48-51 | for 1 <= size and v < 2^size, `binary(v, size)` is exactly size bits that read back as v |
| Bits.BinaryUnique | demo/script/DCF77.js:48-51 | every non-empty bit string is the `binary` encoding of its own value at its own width, so `binary` is one-to-one onto bit strings |
| Bits.LsbInjective | demo/script/DCF77.js:48-51 | two bit strings of equal length and equal value are equal |
| Bits.LsbBound | demo/script/DCF77.js:48-51 | a bit string of n characters reads as less than 2^n |
| Bits.BinaryOfZero | demo/script/DCF77.js:48-51 | `binary(0, size)` is all zeros |
| Bits.Bcd | demo/script/DCF77.js:62-70 | up to 4 bits, `bcd(v, size)` reads back as v. Wider, its first 4 bits read as `v % 10` and the rest as `v / 10` |
| Bits.BcdBits | demo/script/DCF77.js:62-70 | `bcd` yields only '0' and '1' |
| Bits.BcdRoundTrip | demo/script/DCF77.js:62-70 | in range, `bcd(v, size)` is exactly size bits with a decimal ones digit and reads back as v. For size > 4, the first 4 bits read as `v % 10` and the rest as `v / 10` |
| Bits.BcdUnique | demo/script/DCF77.js:62-70 | every bit string whose ones digit is decimal is the `bcd` encoding of the value it reads as |
| Bits.CountOnes | demo/script/DCF77.js:37-39 | the number of '1's is at most the length |
| Bits.EvenParity | demo/script/DCF77.js:37-39 | `evenParity(s)` is a bit, and s followed by it has an even number of '1's |
| Bits.ParityUnique | demo/script/DCF77.js:37-39 | the parity bit is the only bit that makes the count even |
| Frame.Flag | demo/script/DCF77.js:91-92 | `+b` appended to a string is a bit, and it is '1' exactly when b holds |
| Frame.Header | demo/script/DCF77.js:87-95 | the header is 21 characters |
| Frame.HeaderBits | demo/script/DCF77.js:87-95 | the header is bits: the fixed 17-bit preamble, the DST flag, its complement, and "01" |
| Frame.DateBlock | demo/script/DCF77.js:117-120 | the date block is 22 characters |
| Frame.DateIsBits | demo/script/DCF77.js:106-120 | the date block is bits |
| Frame.TimeFieldsFit | demo/script/DCF77.js:98-103 | minute and hour of a valid time fit their 7 and 6 BCD bits exactly |
| Frame.DateFieldsFit | demo/script/DCF77.js:106-115 | day, weekday, month and year - 2000 fit their 6, 3, 5 and 8 BCD bits exactly |
| Frame.Layout | demo/script/DCF77.js:84-126 | the append order of `generateMinute`: the parts with a parity bit after each field and the end marker last, so 4 characters longer than the parts together |
| Frame.LayoutSlices | demo/script/DCF77.js:84-126 | in the append order of `generateMinute`, every part lands at its fixed index range, and the total is 60 characters |
| Frame.LayoutParity | demo/script/DCF77.js:98-103 | in that order, each field is followed by its own even parity bit |
| Frame.LayoutAlphabet | demo/script/DCF77.js:84-126 | a layout of bit parts is bits up to index 58, and index 59 is its only end marker |
| Frame.LayoutOfParts | demo/script/DCF77.js:84-126 | conversely, a 60-character string is a layout of its own parts when its parity positions and end marker are right |
| Frame.GenerateMinute | demo/script/DCF77.js:84-127 | `generateMinute` returns 60 characters: indices 0..58 are bits and index 59 is the only '-' |
| Frame.FrameHeader | demo/script/DCF77.js:87-95 | indices 0..16 are the preamble. Index 17 is '1' exactly under DST, and index 18 exactly without it, so the two differ. Indices 19..20 are "01" |
| Frame.HeaderSlices | demo/script/DCF77.js:87-95 | what each header position of a frame starting with the header holds |
| Frame.FrameTime | demo/script/DCF77.js:97-103 | indices 21..27 are `bcd(minute, 7)` and index 28 is its parity; indices 29..34 are `bcd(hour, 6)` and index 35 is its parity. Each field with its parity bit has an even count of '1's and reads back as the minute or hour |
| Frame.FrameDateBlock | demo/script/DCF77.js:105-121 | indices 36..57 are the date block, and index 58 is the even parity of exactly those 22 bits |
| Frame.DateFieldSlices | demo/script/DCF77.js:106-115 | where the four date sub-fields lie inside the frame |
| Frame.FrameDate | demo/script/DCF77.js:105-115 | indices 36..41, 42..44, 45..49 and 50..57 are the BCD of day, weekday, month and year - 2000 |
| Frame.FrameDateValues | demo/script/DCF77.js:105-115 | each date sub-field reads back as the day, weekday, month and year - 2000 it came from |
| Frame.DecodeFrame | demo/script/DCF77.js:84-127 | a receiver accepts only well-shaped frames, and only with in-range fields |
| Frame.GeneratedShape | demo/script/DCF77.js:84-127 | a generated frame has the shape the receiver expects |
| Frame.GeneratedParityOk | demo/script/DCF77.js:97-121 | a generated frame passes the three parity checks |
| Frame.GeneratedDigitsOk | demo/script/DCF77.js:97-121 | every ones digit in a generated frame is decimal |
| Frame.GeneratedFields | demo/script/DCF77.js:84-127 | reading the fields of a generated frame gives back the time, including the DST flag |
| Frame.DecodeGenerate | demo/script/DCF77.js:84-127 | decoding the frame of a valid time yields that time |
| Frame.GenerateDecode | demo/script/DCF77.js:84-127 | the only frame decoded as time t is the frame generated for t |
| Frame.DecodedHeader | demo/script/DCF77.js:87-95 | an accepted frame starts with the header of its DST flag |
| Frame.DecodedParity | demo/script/DCF77.js:97-121 | in an accepted frame, each parity position holds `evenParity` of its field |
| Frame.DecodedTime | demo/script/DCF77.js:97-103 | in an accepted frame, the minute and hour fields are the `bcd` of the values read from them |
| Frame.DecodedDateFields | demo/script/DCF77.js:105-115 | in an accepted frame, each date sub-field is the `bcd` of the value read from it |
| Frame.DecodedDate | demo/script/DCF77.js:105-121 | in an accepted frame, indices 36..57 are the date block of the decoded time |
| Synth.SecondWave | demo/script/DCF77.js:211-222 | the samples of `createSecond` are one second long; `TemplateShape` gives their contents |
| Synth.CreateSecond | demo/script/DCF77.js:211-222 | `createSecond` returns `sampleRate` samples: 0 where `i / sampleRate < ampMod`, the tone otherwise |
| Synth.SilentPrefix | demo/script/DCF77.js:215 | with `ampMod = k / 10`, sample i is silent exactly when i < ceil(k * sampleRate / 10) |
| Synth.TemplateShape | demo/script/DCF77.js:211-222 | a template is zero before its notch and the tone from the notch on, and the notch lies inside the second |
| Synth.TemplateNotches | demo/script/DCF77.js:25-27 | `ZERO` is silent for the first tenth and `ONE` for the first fifth. `END` has no silence: it is the tone throughout. For a sample rate divisible by 10, the notches are exactly sampleRate/10 and 2*sampleRate/10 |
| Synth.TemplateSample | demo/script/DCF77.js:25-27 | sample j of `ZERO`, `ONE` and `END` |
| Synth.ZeroOneDiffer | demo/script/DCF77.js:25-26 | `ZERO` and `ONE` agree everywhere except between their notches, where `ZERO` already carries the tone and `ONE` is still silent |
| Synth.Waves | demo/script/DCF77.js:25-27 | the three templates are each one second long |
| Synth.SlotOf | demo/script/DCF77.js:169-178 | the `switch`: every slot is one second long, and a character other than '0', '1' or '-', or a second past the end of the frame, leaves the zeros the buffer starts with |
| Synth.SpanIsProduct | demo/script/DCF77.js:171 | the slot offset is `sampleRate * i` |
| Synth.SpanMonotone | demo/script/DCF77.js:166-178 | slot i ends no later than slot n starts, for i < n, so every write stays inside the buffer |
| Synth.SpanAdd | demo/script/DCF77.js:166-178 | the offsets of consecutive slots add up |
| Synth.Slots | demo/script/DCF77.js:166-179 | n slots together are `sampleRate * n` samples |
| Synth.SlotAt | demo/script/DCF77.js:168-179 | sample j of slot i lies at offset `sampleRate * i + j` |
| Synth.SlotsBeyond | demo/script/DCF77.js:166 | slots past the end of the frame keep the zeros the buffer starts with |
| Synth.SetAt | demo/script/DCF77.js:171 | `set(source, offset)` replaces exactly the samples from offset to offset + length and leaves the rest unchanged |
| Synth.CreateMinute | demo/script/DCF77.js:161-182 | `createMinute` returns `sampleRate * 60` samples, and slot i holds the template of the frame's character i |
| Synth.FillSlot | demo/script/DCF77.js:168-179 | one step of the `forEach` extends the filled prefix by one slot and leaves the rest zero |
| Synth.MinuteComplete | demo/script/DCF77.js:166-181 | once the frame is consumed, the buffer is the full minute |
| Synth.Playback | demo/script/DCF77.js:192-194 | `slice(seconds * sampleRate)` keeps everything from that offset on; a start past the end is empty |
| Synth.PlaybackStart | demo/script/DCF77.js:192-194 | in a full minute, playback from second s starts at the offset of slot s |
| Synth.PlaybackAlignment | demo/script/DCF77.js:192-194 | playback from second s holds `(60 - s) * sampleRate` samples, and its sample `sampleRate * k + j` is sample j of slot s + k |
| Synth.SlotOfFrame | demo/script/DCF77.js:168-179 | in a well-formed frame, slot i holds `END` in the last second, otherwise `ONE` or `ZERO` by its bit |
| Synth.MinuteOfTime | demo/script/DCF77.js:161-182 | for the frame of a valid time, all 60 slots are filled: a tenth of silence for a 0 bit, a fifth for a 1 bit, and tone throughout the last second |

## Left out

- The audio graph (demo/script/DCF77.js:21-23, 129-159): the `AudioContext`, the low-shelf filter and gain nodes, `playMinute`, the `onended` callback, the `setTimeout` regeneration of the next minute, `stop`, and the busy wait in `start` for the next second. These are I/O and timer callbacks. The swap of the two upcoming-minute buffers is event-driven.
- `sine` (demo/script/DCF77.js:201-209): floating-point trigonometry and quantisation. Its samples are the abstract parameter `tone`.
- `isDST` (demo/script/DCF77.js:53-60) depends on the host time zone. The DST flag is an input. The code reports DST whenever the current offset equals the smaller of the January and July offsets, which is also true in zones without DST.
- `getUTC`, `addMinutes`, and the shift by one hour and n minutes in `createMinute` (demo/script/DCF77.js:33-35, 72-82, 162-164): calendar roll-over of JS `Date` in the host time zone. The model takes the resulting civil fields as a `CivilTime`.
- demo/script/clock.js, demo/script/main.js and script/main.js are not part of this model. They are clock rendering and button handling.
- Synth.CreateSecond: the comparison `i / sampleRate < ampMod` is exact rational arithmetic in the model. In the code it is a double-precision division against the doubles 0.1 and 0.2, so a sample at the exact boundary could round either way.
- Synth.CreateMinute: samples are `real`. The `Float32Array` rounds each copied double to single precision, which the model does not capture.
- Synth.CreateMinute: the model takes templates of exactly `sampleRate` samples. In the code the templates are built once with the sample rate of the first `AudioContext`, and `start` then creates a new context whose rate is used for the slice. A mismatch between the two rates is not modelled.
- Synth.CreateMinute: the model takes the frame as a parameter. The part of `createMinute` that computes the time of the next minute is the date arithmetic left out above. `Synth.MinuteOfTime` covers the frame that `generateMinute` produces.
- Frame.Valid: the model needs years 2000..2099 for the year field to be two decimal digits. The frames the code produces for later years, described above, are not modelled. Nor are years before 2000: there `getFullYear() - 2000` is negative, and `toString(2)` then writes a '-' into the frame (for example `bcd(-1, 8)` starts with "1-00").
- Synth.CreateMinute: its precondition rules out a symbol at index 60 or later, where `set` throws a RangeError. That happens for the 61-character frames of years 2160 and later, which the model does not cover.
- Frame.DecodeFrame: this is a receiver's reading, written to state the round trip. It is not a function of the script.
