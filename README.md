# FontModel glyph inference, modelled in Dafny

This project models the integer and bookkeeping logic of `FontModel`, the object
that renders a glyph image for a requested character in the latent-space
explorer demo. The neural network itself is abstract. The model covers:

- the character-id table (`charIdMap`) the constructor builds: A..Z are 0..25,
  a..z are 26..51 and 0..9 are 52..61;
- how `infer` validates its character: it looks up only the first character and
  throws "Invalid character id" on a miss, before any tensor work;
- the layer stack's input, which is the caller's embedding followed by a one-hot
  vector of length 62;
- the completion handler's nested loop, which expands the 64 x 64 x 1 output
  grid into a flat RGBA image buffer;
- `get`, which appends the metadata string and a resolving callback to the
  caller's argument array in place.

Modules, leaf first:

- `Outcome`: the `Option` type, the `Result` type and the two failure reasons.
- `CharIds`: the table. `BuildCharIdMap` has the constructor's three loops. It is
  proved against the reference `IdOf`/`CharOf` pair, and `TableIsBijection`
  proves the table is a bijection from 62 keys onto 0..61.
- `InputLayout`: the first-character lookup, the one-hot encoding, and
  `NetworkInput`, the concatenation. `HotIndex` decodes the one-hot block
  again, so the layout is stated as a round trip.
- `Pixels`: the reference expansion `ExpandRgba`, its inverse `RedChannel`, and
  the in-place `FillPixels` loop over an `array<int>`. A ghost log of written
  slots shows that each slot is written exactly once, in increasing order.
- `FontModels`: the positional argument list, the class `FontModel` (constructor,
  `Get`, `Infer`) and `InferImage`, the whole request as a value.

`infer` in the source reads the character from position 2 of the argument list.
`get` appends the current value of `metaData` (initially the string `"A"`) there when the caller passes only the
embedding and the canvas. `RequestTailFeedsInfer` states this.

Notes on the code:

- Requests pass through a `Cache` from `ModelCache`, which is not part of this
  model. `Get` models only the appends to the argument list.
- The code never checks that the embedding has `dimensions` (40) entries.
  `NetworkInput` accepts any length.
- The RGBA expansion is done inside `infer`'s completion handler.

## Model

| member | source | states |
|---|---|---|
| CharIds.IdOf | demos/latent-space-explorer/utils/FontModel.ts:37-45 | every supported character's id lies in 0..61; upper case exactly below 26, digits exactly from 52 |
| CharIds.CharOf | demos/latent-space-explorer/utils/FontModel.ts:37-45 | every id in 0..61 is carried by a supported character whose id is that id |
| CharIds.CharOfIdOf | demos/latent-space-explorer/utils/FontModel.ts:37-45 | CharOf undoes IdOf on every supported character |
| CharIds.IdOfInjective | demos/latent-space-explorer/utils/FontModel.ts:37-45 | two supported characters share an id if and only if they are the same character |
| CharIds.BuildCharIdMap | demos/latent-space-explorer/utils/FontModel.ts:36-45 | the three loops leave exactly the letters and digits as keys, each mapped to its id |
| CharIds.TableRanges | demos/latent-space-explorer/utils/FontModel.ts:37-45 | codes 65..90 map to code-65, 97..122 to code-97+26, 48..57 to code-48+52; other characters are not keys |
| CharIds.TableIsBijection | demos/latent-space-explorer/utils/FontModel.ts:31-45 | the table has exactly 62 keys, values in 0..61, no two keys share a value, and every id 0..61 is hit |
| InputLayout.LookupCharId | demos/latent-space-explorer/utils/FontModel.ts:76-79 | the lookup succeeds exactly when the string has a first character that is a key, and fails with InvalidCharacterId otherwise; its meaning against the finished table is stated by LookupAgainstTable |
| InputLayout.OneHot | demos/latent-space-explorer/utils/FontModel.ts:83-84 | a vector of length 62 holding 1 exactly at the id and 0 everywhere else |
| InputLayout.NetworkInput | demos/latent-space-explorer/utils/FontModel.ts:86 | the concatenation has length embedding+62 and keeps the embedding as its prefix; the one-hot positions are stated by NetworkInputLayout and HotIndexOfNetworkInput |
| InputLayout.PrepareInput | demos/latent-space-explorer/utils/FontModel.ts:76-86 | fails with InvalidCharacterId exactly when the lookup fails, otherwise yields an input of length embedding+62; the full meaning is stated by PrepareInputSpec |
| InputLayout.LookupAgainstTable | demos/latent-space-explorer/utils/FontModel.ts:76-79 | the lookup succeeds if and only if the string is non-empty and its first character is a letter or digit; it yields that character's id and otherwise fails with InvalidCharacterId |
| InputLayout.LookupFirstCharOnly | demos/latent-space-explorer/utils/FontModel.ts:76 | two strings with the same first character resolve identically |
| InputLayout.NetworkInputLayout | demos/latent-space-explorer/utils/FontModel.ts:82-86 | the input has length embedding+62, keeps the embedding as its prefix, holds 1 at embedding+charId and 0 at every other one-hot position |
| InputLayout.HotIndexOfNetworkInput | demos/latent-space-explorer/utils/FontModel.ts:82-86 | decoding the one-hot block of the input gives back the character id |
| InputLayout.NetworkInputInjective | demos/latent-space-explorer/utils/FontModel.ts:82-86 | for one embedding, two ids give the same input if and only if they are equal |
| InputLayout.PrepareInputSpec | demos/latent-space-explorer/utils/FontModel.ts:76-86 | preparation fails with InvalidCharacterId exactly for empty or unsupported first characters; otherwise the input is exactly NetworkInput of the embedding and the first character's id (so every other one-hot entry is 0), keeps the embedding and decodes to that id |
| Pixels.ExpandRgba | demos/latent-space-explorer/utils/FontModel.ts:116-125 | the RGBA buffer has four slots per grid cell |
| Pixels.ExpandRgbaAt | demos/latent-space-explorer/utils/FontModel.ts:116-125 | cell k lands in slots 4k, 4k+1, 4k+2 and slot 4k+3 holds 255 |
| Pixels.ExpandRgbaPixels | demos/latent-space-explorer/utils/FontModel.ts:119-123 | every pixel of the expansion is its cell's intensity three times followed by 255 |
| Pixels.ExpandRgbaSnoc | demos/latent-space-explorer/utils/FontModel.ts:117-124 | each further cell appends exactly one pixel value, value, value, 255 at the end |
| Pixels.RedChannelOfExpand | demos/latent-space-explorer/utils/FontModel.ts:119-123 | reading the red channel back gives the grid, so the expansion loses nothing |
| Pixels.WritePixel | demos/latent-space-explorer/utils/FontModel.ts:120-123 | the four writes append one pixel at the offset and leave the rest of the buffer unchanged |
| Pixels.FillPixels | demos/latent-space-explorer/utils/FontModel.ts:114-125 | the final pixelOffset is 4*rows*cols, the buffer's length; the buffer equals ExpandRgba of the grid in row-major order; every slot is written exactly once, in increasing order |
| FontModels.ArgList.Push | demos/latent-space-explorer/utils/FontModel.ts:58 | push appends one element at the end |
| FontModels.WithRequestTail | demos/latent-space-explorer/utils/FontModel.ts:57-62 | the list grows by exactly two; the original elements keep their positions; metaData comes next and then the resolving callback |
| FontModels.UnpackInferArgs | demos/latent-space-explorer/utils/FontModel.ts:70-74 | infer accepts a list of at least four elements whose positions 0 to 2 are an embedding, a canvas and a string; it reads the embedding at 0, the canvas at 1, the character at 2, and takes the callback at 3 unchecked |
| FontModels.RequestTailFeedsInfer | demos/latent-space-explorer/utils/FontModel.ts:57-74 | for a caller passing only the embedding and canvas, infer runs on metaData as the character with the resolving callback |
| FontModels.InferImage | demos/latent-space-explorer/utils/FontModel.ts:70-125 | a successful request yields 4*64*64 bytes and a failed one names InvalidCharacterId or ShapeMismatch; the full meaning is stated by InferImageSpec |
| FontModels.InferImageSpec | demos/latent-space-explorer/utils/FontModel.ts:70-125 | a request is refused as invalid exactly for empty or unsupported first characters; it fails on shape exactly when the network output is not 64*64 long; otherwise the 16384-byte image's red channel is the network output on embedding plus one-hot, and every pixel is that intensity in red, green and blue with alpha 255 |
| FontModels.FontModel.constructor | demos/latent-space-explorer/utils/FontModel.ts:24-46 | the fields start as "A", 40 and 0.4 and the table is the finished character-id table |
| FontModels.FontModel.Get | demos/latent-space-explorer/utils/FontModel.ts:57-64 | the caller's argument list is extended in place by metaData and then the resolving callback |
| FontModels.FontModel.Infer | demos/latent-space-explorer/utils/FontModel.ts:70-133 | the result agrees with InferImage: the same error, or a fresh image buffer holding its bytes |

## Left out

- `load` and `CheckpointLoader`: fetching the weights is network I/O against a remote bucket. The weights appear only inside the `network` parameter.
- The layer stack, relu, sigmoid, the `255 - 255 * x` rescaling and every `NDArrayMathGPU` call (FontModel.ts:81-109): floating-point work on a GPU backend that is not part of this model. `Infer` takes the stack as a total function `network` from the input vector to integer intensities.
- `init`, `math.scope`, `dispose` and tensor lifetime: resource management inside the numeric library.
- `createImageData`, `putImageData`, the `d.data()` promise and the call of `cb`: canvas and asynchronous plumbing. `Infer` returns the filled buffer instead of drawing it.
- `Uint8ClampedArray` rounding and clamping: pixel values are modelled as integers and stored as given.
- `Cache` from `ModelCache` (deduplication of requests) and the `priority` argument: the cache is not part of this model, and `priority` is never used in this file. `Get` models only the two appends and returns no promise.
- FontModels.UnpackInferArgs: the casts in the source are unchecked. Positions 0 to 2 must be an embedding, a canvas and a string, and an element of the wrong kind there gives `None`, where the source would fail later or misbehave. Position 3 is taken unchecked, and `Infer` never calls it, so a non-callable element there, on which the source's final `cb()` would throw, is not detected.
- The reshape `as3D(64, 64, 1)` is modelled by its size check (`ShapeMismatch`) and by reading `d.get(i, j, 0)` as `d[i * cols + j]`.
