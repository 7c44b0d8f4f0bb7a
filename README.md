# GUI element, GUI events and the game-data byte codecs, in Dafny

This project models three small parts of a collection of ScummVM helper tools and
proves what they do.

- **GuiElement** (`gui_element.dfy`, module `GuiElements`) is the base class of the GUI
  widgets and layouts. It is a Dafny class with these fields:
  - the top-left position `x`, `y`;
  - a sign-encoded `width` and `height`, where a negative value under the `FixedSize`
    policy means a fixed size;
  - the horizontal and vertical `SizePolicy`;
  - a `parent` that is fixed at construction.

  The hook `recomputeLayout` does nothing in the base class (gui_element.cpp:234-235).
  `recomputeChildPosition` has no body in the source and is modelled as doing nothing.
  Two ghost counters record how often each hook ran, so the setters' "nothing happens
  when nothing changes" guards can be stated. The setters are modelled as written, which
  includes the policy setters that never change the policy (see Findings).
- **GUI events** (`gui_event.dfy`, module `GuiEvents`) are immutable values:
  - a mouse event holds its type, position, button, wheel delta and modifier keys;
  - a key event holds its type, key and modifier keys.

  The C++ constructors, with their default arguments, are functions. The accessors are
  the datatype's destructors.
- **Mortevielle menu codec.**
  - `menu_decode.dfy` turns bitmap bytes into text: `'1'` or `'.'` per pixel, most
    significant bit first, and a line break after every third byte.
  - `menu_encode.dfy` packs `'1'`, `'0'` and `'.'` back into bytes and skips every other
    character.
  - `menu_bits.dfy` holds the shared bit order.

  Each direction is a pure function plus a loop method proved equal to it. The round
  trip `Encode(Decode(bytes)) == bytes` is proved.
- **Drascula xor tool** (`drascula_xor.dfy`, module `DrasculaXor`) writes each file named
  on the command line to `name.xored`, with every byte complemented. Here:
  - the file system is a map from names to contents;
  - the names the tool may create form a set;
  - the per-file loop and the byte loop are methods proved equal to functions.

The getWidth comment (GuiElement/gui_element.h:75-79) says an unset size reads -1. The
constructor stores 0 (GuiElement/gui_element.cpp:42-48), so an unset size reads 0. The
model follows the code.

## Model

| member | source | states |
|---|---|---|
| GuiElements.GuiElement.constructor | GuiElement/gui_element.cpp:42-48 | a new element is at (0, 0), has size 0 x 0, is PreferedSize both ways, has no parent, and no hook has run |
| GuiElements.GuiElement.InContainer | GuiElement/gui_element.h:54 | an element created inside a container has the same defaults, with that container as parent |
| GuiElements.GuiElement.GetTop | GuiElement/gui_element.h:62-64 | the top coordinate is the stored y, which setTopLeft sets |
| GuiElements.GuiElement.GetLeft | GuiElement/gui_element.h:71-73 | the left coordinate is the stored x, which setTopLeft sets |
| GuiElements.GuiElement.GetHorizontalSizePolicy | GuiElement/gui_element.h:100-102 | the stored horizontal policy |
| GuiElements.GuiElement.GetVerticalSizePolicy | GuiElement/gui_element.h:111-113 | the stored vertical policy |
| GuiElements.GuiElement.HasFixedWidth | GuiElement/gui_element.h:124-126 | a fixed width means FixedSize and a positive width; it holds iff the size hint is positive |
| GuiElements.GuiElement.HasFixedHeight | GuiElement/gui_element.h:137-139 | a fixed height means FixedSize and a positive height; it holds iff the size hint is positive |
| GuiElements.GuiElement.GetWidth | GuiElement/gui_element.h:80-82 | the width is never negative and is the magnitude of the sign-encoded field |
| GuiElements.GuiElement.GetHeight | GuiElement/gui_element.h:89-91 | the height is never negative and is the magnitude of the sign-encoded field |
| GuiElements.GuiElement.GetMinimumWidth | GuiElement/gui_element.cpp:98-102 | positive exactly when the width is fixed (negative field under FixedSize), and then the fixed width; 0 otherwise |
| GuiElements.GuiElement.GetMinimumHeight | GuiElement/gui_element.cpp:121-125 | positive exactly when the height is fixed, and then the fixed height; 0 otherwise |
| GuiElements.GuiElement.GetPreferedWidth | GuiElement/gui_element.cpp:144-148 | same size hint as the minimum width in the base class |
| GuiElements.GuiElement.GetPreferedHeight | GuiElement/gui_element.cpp:167-171 | same size hint as the minimum height in the base class |
| GuiElements.SizeHint | GuiElement/gui_element.h:124-139 | the hint is positive iff the dimension is fixed, i.e. stored negative under FixedSize, and then equals its magnitude |
| GuiElements.Magnitude | GuiElement/gui_element.h:80-82 | the size a layout reads from a sign-encoded field is never negative and is the field or its negation |
| GuiElements.Fixed | GuiElement/gui_element.h:124-126 | a dimension stored negative under FixedSize is fixed; a fixed dimension has the FixedSize policy and a positive size |
| GuiElements.FixedByValue | GuiElement/gui_element.cpp:204-211 | storing `-w` under FixedSize fixes the dimension iff w > 0, and the hint is then w (0 otherwise) |
| GuiElements.GuiElement.SetSize | GuiElement/gui_element.cpp:60-67 | stores both raw values; recomputeLayout runs once when either differs and not at all otherwise; position and policies are untouched |
| GuiElements.GuiElement.SetTopLeft | GuiElement/gui_element.cpp:72-79 | top first: stores y and x; recomputeChildPosition runs once when either differs and not at all otherwise; size and policies are untouched |
| GuiElements.GuiElement.SetHorizontalSizePolicy | GuiElement/gui_element.cpp:178-183 | as written, the horizontal policy never changes, and the parent (if any) is asked to lay out again every time |
| GuiElements.GuiElement.SetVerticalSizePolicy | GuiElement/gui_element.cpp:190-195 | as written, the vertical policy never changes, and the parent (if any) is asked to lay out again every time |
| GuiElements.GuiElement.SetHorizontalSizePolicyIntended | GuiElement/gui_element.cpp:173-183 | corrected setter: the new horizontal policy is stored; the parent's layout runs once when the policy differs and not at all when it is unchanged, like setSize and setFixedWidth |
| GuiElements.GuiElement.SetVerticalSizePolicyIntended | GuiElement/gui_element.cpp:185-195 | corrected setter: the new vertical policy is stored; the parent's layout runs once when the policy differs and not at all when it is unchanged |
| GuiElements.GuiElement.SetFixedWidth | GuiElement/gui_element.cpp:204-211 | stores `-w` under FixedSize; the width is fixed iff w > 0; the minimum and preferred widths are then w (0 for w <= 0); the parent's layout runs once unless field and policy were already so |
| GuiElements.GuiElement.SetFixedHeight | GuiElement/gui_element.cpp:220-227 | the same for the height and the vertical policy |
| GuiElements.GuiElement.RecomputeLayout | GuiElement/gui_element.cpp:234-235 | the base hook changes nothing but the record of its call |
| GuiElements.GuiElement.RecomputeChildPosition | GuiElement/gui_element.h:41 | the base hook changes nothing but the record of its call |
| GuiElements.GuiElement.ProcessEvent | GuiElement/gui_element.cpp:243-245 | the base class accepts no event and changes no state |
| GuiElements.PolicySetterKeepsPolicy | GuiElement/gui_element.cpp:178-180 | on a new element, setHorizontalSizePolicy(FixedSize) leaves the policy PreferedSize |
| GuiElements.IntendedPolicySetterStores | GuiElement/gui_element.cpp:173-177 | with the corrected setter the same call leaves the policy FixedSize |
| GuiElements.SetSizeUnfixesWidth | GuiElement/gui_element.cpp:60-67 | after setFixedWidth(5), setSize(5, h) is not a no-op: the width is no longer fixed, the policy stays FixedSize and the width still reads 5 |
| GuiEvents.Flag | GuiElement/gui_event.h:15-18 | each modifier flag is a single bit among the low four |
| GuiEvents.FlagsDistinct | GuiElement/gui_event.h:15-18 | two flags share a bit iff they are the same modifier |
| GuiEvents.Combine | GuiElement/gui_event.h:15-18 | an or-combination of flags uses only the four modifier bits |
| GuiEvents.CombineDetermines | GuiElement/gui_event.h:15-18 | an or-combination of flags has a modifier's bit iff that modifier was combined |
| GuiEvents.MouseEvent | GuiElement/gui_event.cpp:19-23 | the typed mouse constructor stores type, x, y, button and modifiers verbatim, and the wheel delta is 0 |
| GuiEvents.WheelEvent | GuiElement/gui_event.cpp:34-38 | the wheel constructor's type is MouseWheelEvent; it stores x, y, delta, button and modifiers verbatim |
| GuiEvents.KeyEvent | GuiElement/gui_event.cpp:47-51 | the key constructor stores type, key and modifiers verbatim |
| GuiEvents.RebuildExactly | GuiElement/gui_event.h:34-136 | an event is rebuilt by a constructor from its own accessors iff it is constructible (a nonzero wheel delta only on MouseWheelEvent) |
| GuiEvents.WheelAndTypedAgree | GuiElement/gui_event.cpp:19-38 | the wheel constructor and the typed constructor given MouseWheelEvent build the same event iff the delta is 0 |
| GuiEvents.Defaults | GuiElement/gui_event.h:47-48 | an omitted button is NoButton and omitted modifiers are 0, i.e. no modifier pressed |
| MenuBits.Mask | mortevielle_menu/decode.c:37-40 | the mask for pixel k is a single bit |
| MenuBits.MaskIsShiftedOne | mortevielle_menu/encode.c:38 | the encoder's `1 << (7 - k)` is the decoder's mask for pixel k |
| MenuBits.MaskShift | mortevielle_menu/decode.c:40 | shifting the mask right moves it to the next pixel |
| MenuBits.MasksDisjoint | mortevielle_menu/decode.c:37-40 | distinct pixels have disjoint masks |
| MenuBits.ByteBits | mortevielle_menu/decode.c:38-39 | the eight pixels of a byte, most significant first |
| MenuBits.PixelsDetermineByte | mortevielle_menu/decode.c:38-39 | two bytes with the same eight pixels are equal |
| MenuDecode.DecodeByte | mortevielle_menu/decode.c:37-41 | a byte yields exactly 8 characters: '1' for a set pixel and '.' otherwise, most significant first |
| MenuDecode.PixelChar | mortevielle_menu/decode.c:39 | a pixel is written as '1' exactly when it is set, and as '.' otherwise |
| MenuDecode.Decode | mortevielle_menu/decode.c:35-47 | the text has at least 8 characters per byte |
| MenuDecode.DecodeLength | mortevielle_menu/decode.c:35-47 | n bytes give 8 n + n / 3 characters |
| MenuDecode.DecodeAlphabet | mortevielle_menu/decode.c:39-44 | only '1', '.' and line breaks are written |
| MenuDecode.DecodeRow | mortevielle_menu/decode.c:42-46 | three bytes give their 24 pixel characters and one line break |
| MenuDecode.DecodeAppendRows | mortevielle_menu/decode.c:42-46 | the row counter restarts after each row: whole rows decode independently of what follows |
| MenuDecode.DecodeSnoc | mortevielle_menu/decode.c:36-46 | one more byte appends its 8 characters, plus a line break when it completes a row |
| MenuDecode.DecodeEndsWithNewline | mortevielle_menu/decode.c:42-46 | the text ends with a line break iff the byte count is a nonzero multiple of 3, so a trailing 1-2 bytes get none |
| MenuDecode.DecodeMenu | mortevielle_menu/decode.c:35-47 | the mask and row-counter loop writes exactly Decode(bytes), with the counter in 0..2 between bytes |
| MenuEncode.CharBits | mortevielle_menu/encode.c:37-42 | '1', '0' and '.' give one pixel, set only for '1'; every other character gives none |
| MenuEncode.Bits | mortevielle_menu/encode.c:37-42 | the pixels read from a text are no more than its characters |
| MenuEncode.Pack | mortevielle_menu/encode.c:43-47 | one byte per whole group of eight pixels |
| MenuEncode.Encode | mortevielle_menu/encode.c:33-49 | the output has one byte per whole group of eight pixel characters, bounded both ways |
| MenuEncode.EncodeLength | mortevielle_menu/encode.c:33-49 | the output length is the number of pixel characters divided by 8, rounded down, so a trailing partial group is dropped |
| MenuEncode.BitsAppend | mortevielle_menu/encode.c:36-42 | the pixels of a concatenation are the pixels of each part |
| MenuEncode.BitsSnoc | mortevielle_menu/encode.c:36-42 | one more character adds its own pixels |
| MenuEncode.EncodeSkipsOtherChars | mortevielle_menu/encode.c:41-42 | a character other than '1', '0', '.' changes nothing wherever it appears |
| MenuEncode.EncodeZeroIsDot | mortevielle_menu/encode.c:39-40 | '0' and '.' are interchangeable |
| MenuEncode.ByteOfSnoc | mortevielle_menu/encode.c:37-38 | one more pixel in a group ors in its mask when it is set |
| MenuEncode.ByteOf | mortevielle_menu/encode.c:37-38 | the byte a group of pixels builds by or-ing in each foreground pixel's mask; pixels past the group stay clear |
| MenuEncode.ByteOfPixels | mortevielle_menu/encode.c:37-38 | pixel k of a packed group is set iff the group's k-th pixel is set; pixels past a short group stay clear |
| MenuEncode.ByteOfByteBits | mortevielle_menu/encode.c:37-38 | packing a byte's eight pixels gives the byte back |
| MenuEncode.PackAppend | mortevielle_menu/encode.c:43-47 | packing whole bytes and then the rest is packing everything |
| MenuEncode.PackAt | mortevielle_menu/encode.c:43-47 | output byte j holds pixels 8 j to 8 j + 7 |
| MenuEncode.EncodeMsbFirst | mortevielle_menu/encode.c:37-38 | pixel k of output byte j is set iff the (8 j + k)-th pixel character is '1' |
| MenuEncode.PackGroup | mortevielle_menu/encode.c:43-47 | an eighth pixel after whole bytes emits exactly one byte |
| MenuEncode.PackPartial | mortevielle_menu/encode.c:33-49 | a trailing group of fewer than eight pixels emits nothing |
| MenuEncode.Run | mortevielle_menu/encode.c:33-49 | the bit counter is in 0..7 after any text |
| MenuEncode.Step | mortevielle_menu/encode.c:37-47 | a non-pixel character changes nothing; a pixel advances the counter modulo 8; output is only appended, one byte exactly when the eighth pixel completes a group |
| MenuEncode.RunSnoc | mortevielle_menu/encode.c:36-48 | the state after one more character is one encoder step from the state before |
| MenuEncode.PixelStepHolds | mortevielle_menu/encode.c:37-47 | a pixel character adds its pixel to the pending group; the eighth writes the group's byte and resets counter and accumulator |
| MenuEncode.GroupCompletes | mortevielle_menu/encode.c:43-47 | the byte written on the eighth pixel is the packed group, and counter and accumulator restart at 0 |
| MenuEncode.StepHolds | mortevielle_menu/encode.c:36-48 | each step keeps the counter, accumulator and output equal to the pixels read so far |
| MenuEncode.RunPacks | mortevielle_menu/encode.c:33-49 | after any text, the output is the packed whole groups and the counter and accumulator hold the pending group |
| MenuEncode.RunEncodes | mortevielle_menu/encode.c:33-49 | the encoder's output after a text is Encode(text) |
| MenuEncode.SetPixelByShift | mortevielle_menu/encode.c:38 | or-ing `1 << (7 - k)` into the accumulator sets its pixel k |
| MenuEncode.EncodeMenu | mortevielle_menu/encode.c:33-49 | the fread/for loop over the chunks writes exactly Encode of their concatenation, so chunking does not matter |
| MenuEncode.AllBits | mortevielle_menu/decode.c:35-41 | a byte stream has 8 pixels per byte |
| MenuEncode.BitsOfPixelChars | mortevielle_menu/encode.c:37-40 | a text of '1' and '.' reads back as one pixel per character, set iff '1' |
| MenuEncode.BitsOfDecodeByte | mortevielle_menu/decode.c:37-41 | the 8 characters written for a byte read back as its pixels |
| MenuEncode.BitsOfLineBreak | mortevielle_menu/encode.c:41-42 | the decoder's line break carries no pixel |
| MenuEncode.BitsOfDecode | mortevielle_menu/decode.c:35-47 | the encoder reads exactly the pixels of the decoded bytes |
| MenuEncode.PackAllBits | mortevielle_menu/encode.c:43-47 | packing the pixels of a byte stream gives the stream back |
| MenuEncode.EncodeDecode | mortevielle_menu/encode.c:26-32 | round trip: encoding the decoded text gives back the original bytes |
| DrasculaXor.Invert | drascula-xor/xor.c:25 | each output byte is 255 - c |
| DrasculaXor.Complement | drascula-xor/xor.c:24-26 | the output has as many bytes as the input, each one 255 minus the input byte |
| DrasculaXor.ComplementInvolution | drascula-xor/xor.c:25 | complementing twice gives back the original contents |
| DrasculaXor.ComplementInjective | drascula-xor/xor.c:25 | two inputs have the same output iff they are equal |
| DrasculaXor.ComplementAppend | drascula-xor/xor.c:24-26 | the transform streams: it distributes over concatenation |
| DrasculaXor.XorStream | drascula-xor/xor.c:24-26 | the fgetc/fputc loop writes exactly Complement(data) |
| DrasculaXor.OutputName | drascula-xor/xor.c:17 | the output name is the input name followed by ".xored" |
| DrasculaXor.OutputNameDistinct | drascula-xor/xor.c:17 | the output name never equals its input name, and distinct inputs have distinct output names |
| DrasculaXor.Step | drascula-xor/xor.c:14-30 | a file that opens and whose output can be created gets its output holding the complement and one message; otherwise nothing changes; no other file changes |
| DrasculaXor.Processed | drascula-xor/xor.c:14-22 | a file is processed only when it opens and its output can be created, and the output is never the input file itself |
| DrasculaXor.XorAll | drascula-xor/xor.c:13-31 | the outcome of the argument loop: Step over the arguments in order from the given files and no messages; every file it creates is the output of some argument |
| DrasculaXor.XorAllMessages | drascula-xor/xor.c:13-31 | at most one message per argument, each naming a creatable output of some argument |
| DrasculaXor.XorAllFrame | drascula-xor/xor.c:13-31 | a name that is no argument's output neither appears nor disappears, and keeps its contents |
| DrasculaXor.XorAllKeepsFiles | drascula-xor/xor.c:13-31 | no file disappears: every file present before the run is present after it |
| DrasculaXor.XorTwiceRestores | drascula-xor/xor.c:13-31 | running on a file and then on its output writes the original contents to "name.xored.xored" |
| DrasculaXor.XorFiles | drascula-xor/xor.c:13-31 | the argument loop, skipping files that fail to open or create, produces exactly XorAll |

## Left out

- File and console I/O are left out: fopen, fread, fwrite, fgetc, fputc, printf and
  fclose, the argc checks, the usage text and the -1/-2/-3 return codes.
  - The codecs work on in-memory sequences.
  - The encoder receives the fread chunks as a sequence of character sequences.
  - The xor tool's file system is a map.
  - The xor tool's "...wrote file" lines become a list of the output names.
- The fixed 256-byte `sprintf` buffer of xor.c (drascula-xor/xor.c:5, 17) is not
  modelled. The output name is unbounded string concatenation, so overflow on names
  longer than 249 characters is outside the model.
- The xor tool's per-file steps are simplified:
  - a file that fails to open is a name missing from the map;
  - an output that cannot be created is a name missing from a fixed set of creatable
    names;
  - the permissions behind both do not change during a run.
- The C `int` fields of GuiElement and of the events are unbounded integers. Negating
  INT_MIN in getWidth, getHeight, setFixedWidth and setFixedHeight is not modelled.
- The `char` key of a key event is a byte (`bv8`). Its signedness is not modelled.
- The typed mouse constructor and the key constructor accept any event type, as the
  code does. The comments' restriction to mouse or key types is not enforced.
- The layout algorithm is not modelled: the sharing of space between Fixed, Prefered
  and Expanding children, and the "collapse children when the size is 0" rule in the
  comment at GuiElement/gui_element.h:40. No container or child code exists.
- Event bubbling up the parent chain and virtual overriding by derived widgets are not
  modelled. Only the base class's own members are modelled.
- No shown code sets `_parent`. The extra constructor
  `GuiElements.GuiElement.InContainer` stands in for the container that would do so.
  The parent is fixed afterwards.
- The body of recomputeChildPosition is not part of this model; it is only declared at
  GuiElement/gui_element.h:41. Like recomputeLayout, it only records its call.
- Destructors are not modelled.
- Compile-level defects are not modelled; the model uses the evident meaning. These are:
  - the missing semicolons after the enums;
  - the stray `#endif` in gui_event.cpp;
  - the repeated default argument of the key-event constructor.

## Findings

| source | as written | input that shows it | evidently intended | confidence | as-written member | corrected member |
|---|---|---|---|---|---|---|
| GuiElement/gui_element.cpp:178-183 | `if (policy == _horizontalSizePolicy) _horizontalSizePolicy = policy;` assigns only a value already stored, so the policy never changes (the vertical setter at 190-195 is the same) | a new element (PreferedSize) given setHorizontalSizePolicy(FixedSize) stays PreferedSize | when the policy differs, store it and notify the parent; when it is unchanged, do nothing (an early return, as setSize, setTopLeft and setFixedWidth do), as the documentation of the setter and of hasFixedWidth describes | high, not executed | GuiElements.PolicySetterKeepsPolicy | GuiElements.GuiElement.SetHorizontalSizePolicyIntended |
