/** The font model object: its character-id table, the request path `get`
    that completes a caller's argument list, and `infer`, which validates the
    character, feeds the layer stack and draws the result into an image buffer. */
module FontModels {
  import opened Outcome
  import opened CharIds
  import opened InputLayout
  import opened Pixels

  /** One element of the loosely typed positional argument list the caller
      builds: the embedding, the drawing surface, the character, the callback. */
  datatype Arg =
    | Embedding(values: seq<real>)
    | Canvas(surface: nat)
    | Text(text: string)
    | ResolvePromise  // the callback that resolves the promise `get` hands back

  /** The arguments `infer` takes from the list, by position. */
  datatype InferCall = InferCall(embedding: seq<real>, canvas: nat, character: string, callback: Arg)

  /** The caller's argument array, which `get` extends in place. */
  class ArgList {
    var items: seq<Arg>

    constructor (items: seq<Arg>)
      ensures this.items == items
    {
      this.items := items;
    }

    method Push(x: Arg)
      modifies this
      ensures items == old(items) + [x]
    {
      items := items + [x];
    }
  }

  /** The list `get` leaves behind: the caller's elements in place, then the
      model's metadata string, then the resolving callback. */
  function WithRequestTail(args: seq<Arg>, metaData: string): (r: seq<Arg>)
    ensures |r| == |args| + 2
    ensures r[..|args|] == args
    ensures r[|args|] == Text(metaData) && r[|args| + 1] == ResolvePromise
  {
    args + [Text(metaData), ResolvePromise]
  }

  /** `infer` reads its arguments by position: 0 the embedding, 1 the canvas,
      2 the character string, 3 the completion callback. */
  function UnpackInferArgs(args: seq<Arg>): (r: Option<InferCall>)
    ensures r.Some? <==> |args| >= 4 && args[0].Embedding? && args[1].Canvas? && args[2].Text?
    ensures r.Some? ==> r.value.embedding == args[0].values && r.value.canvas == args[1].surface
                        && r.value.character == args[2].text && r.value.callback == args[3]
  {
    if |args| >= 4 && args[0].Embedding? && args[1].Canvas? && args[2].Text? then
      Some(InferCall(args[0].values, args[1].surface, args[2].text, args[3]))
    else
      None
  }

  /** A caller that passes just the embedding and the canvas gets `infer` run on
      the model's metadata string as the character, with the resolving callback. */
  lemma RequestTailFeedsInfer(embedding: seq<real>, canvas: nat, metaData: string)
    ensures UnpackInferArgs(WithRequestTail([Embedding(embedding), Canvas(canvas)], metaData))
            == Some(InferCall(embedding, canvas, metaData, ResolvePromise))
  {
  }

  /** What `infer` produces for one request, before it is put on the canvas:
      the RGBA bytes of the glyph image, or the reason it was refused.
      `network` stands for the layer stack evaluated with the loaded weights,
      already rescaled to pixel intensities. */
  function InferImage(charIdMap: map<char, int>, embedding: seq<real>, character: string,
                      network: seq<real> -> seq<int>): (r: Result<seq<int>>)
    ensures r.Ok? ==> |r.value| == 4 * (ImageSize * ImageSize)
    ensures r.Err? ==> r.error == InvalidCharacterId || r.error == ShapeMismatch
  {
    match PrepareInput(charIdMap, embedding, character)
    case Err(e) => Err(e)
    case Ok(input) =>
      var adjusted := network(input);
      if |adjusted| == ImageSize * ImageSize then Ok(ExpandRgba(adjusted)) else Err(ShapeMismatch)
  }

  /** With the finished id table, a request is refused as an invalid character
      exactly when its first character is missing or unsupported, and the
      network is then never consulted; otherwise the image holds 64 x 64 opaque
      pixels (4 * 64 * 64 = 16384 bytes) whose red channel is the network's output on the embedding
      followed by the one-hot code of the character. */
  lemma InferImageSpec(m: map<char, int>, embedding: seq<real>, character: string,
                       network: seq<real> -> seq<int>)
    requires IsCharIdTable(m)
    ensures InferImage(m, embedding, character, network) == Err(InvalidCharacterId) <==>
              |character| == 0 || !IsValidChar(character[0])
    ensures InferImage(m, embedding, character, network) == Err(ShapeMismatch) <==>
              |character| > 0 && IsValidChar(character[0]) &&
              |network(NetworkInput(embedding, IdOf(character[0])))| != ImageSize * ImageSize
    ensures InferImage(m, embedding, character, network).Ok? ==>
              var image := InferImage(m, embedding, character, network).value;
              |image| == 4 * ImageSize * ImageSize &&
              RedChannel(image) == network(NetworkInput(embedding, IdOf(character[0]))) &&
              forall k :: 0 <= k < ImageSize * ImageSize ==>
                var g := network(NetworkInput(embedding, IdOf(character[0])));
                Pixel(image, k) == [g[k], g[k], g[k], Opaque]
  {
    PrepareInputSpec(m, embedding, character);
    LookupAgainstTable(m, character);
    var r := InferImage(m, embedding, character, network);
    if r.Ok? {
      RedChannelOfExpand(network(NetworkInput(embedding, IdOf(character[0]))));
      ExpandRgbaPixels(network(NetworkInput(embedding, IdOf(character[0]))));
    }
  }

  class FontModel {
    var metaData: string
    var dimensions: nat
    var range: real
    var charIdMap: map<char, int>
    var numberOfValidChars: nat

    /** The object invariant: the table is the finished character-id table. */
    ghost predicate Valid()
      reads this
    {
      IsCharIdTable(charIdMap) && numberOfValidChars == NumberOfValidChars
    }

    constructor ()
      ensures Valid()
      ensures metaData == "A" && dimensions == 40 && range == 0.4
    {
      metaData := "A";
      dimensions := 40;
      range := 0.4;
      numberOfValidChars := 62;
      var table := BuildCharIdMap();
      charIdMap := table;
    }

    /** Completes the caller's argument list and hands it on to be inferred:
        the list grows by the metadata string and then the resolving callback. */
    method Get(id: int, args: ArgList, priority: int)
      modifies args
      ensures args.items == WithRequestTail(old(args.items), metaData)
    {
      args.Push(Text(metaData));
      args.Push(ResolvePromise);
    }

    /** Runs one request: rejects an unsupported character before anything
        else, evaluates the network on the prepared input, reshapes the result
        to the image grid and fills a fresh image buffer pixel by pixel. */
    method Infer(embedding: seq<real>, character: string, network: seq<real> -> seq<int>)
        returns (r: Result<array<int>>)
      requires Valid()
      ensures r.Err? ==> InferImage(charIdMap, embedding, character, network) == Err(r.error)
      ensures r.Ok? ==> fresh(r.value) &&
                        InferImage(charIdMap, embedding, character, network) == Ok(r.value[..])
    {
      var charId := LookupCharId(charIdMap, character);
      if charId.Err? {
        return Err(charId.error);
      }
      var adjusted := network(NetworkInput(embedding, charId.value));
      if |adjusted| != ImageSize * ImageSize {
        return Err(ShapeMismatch);
      }
      var imageData := new int[4 * (ImageSize * ImageSize)];
      var pixelOffset, written := FillPixels(adjusted, ImageSize, ImageSize, imageData);
      r := Ok(imageData);
    }
  }
}
