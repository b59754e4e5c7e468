/** How `infer` turns a request into the vector fed to the layer stack: the
    character is resolved through the id table, encoded one-hot, and appended
    after the caller's embedding. */
module InputLayout {
  import opened Outcome
  import opened CharIds

  /** Resolves the request's character. Only the first character of the string
      is looked up; an empty string has no first character and, like any
      character missing from the table, is rejected. */
  function LookupCharId(charIdMap: map<char, int>, s: string): (r: Result<int>)
    ensures r.Ok? <==> |s| > 0 && s[0] in charIdMap
    ensures r.Err? ==> r.error == InvalidCharacterId
  {
    if |s| > 0 && s[0] in charIdMap then Ok(charIdMap[s[0]]) else Err(InvalidCharacterId)
  }

  /** A vector of length n with 1 at index id and 0 everywhere else. */
  function OneHot(id: int, n: nat): (v: seq<real>)
    ensures |v| == n
    ensures forall k :: 0 <= k < n ==> (v[k] == 1.0 <==> k == id) && (k != id ==> v[k] == 0.0)
  {
    seq(n, k => if k == id then 1.0 else 0.0)
  }

  /** The layer stack's input: the embedding followed by the one-hot code of the character. */
  function NetworkInput(embedding: seq<real>, charId: int): (input: seq<real>)
    ensures |input| == |embedding| + NumberOfValidChars
    ensures input[..|embedding|] == embedding
  {
    embedding + OneHot(charId, NumberOfValidChars)
  }

  /** The one-hot block of an input vector whose embedding has `dims` entries. */
  function OneHotPart(input: seq<real>, dims: nat): (block: seq<real>)
    requires dims + NumberOfValidChars <= |input|
    ensures |block| == NumberOfValidChars
  {
    input[dims..dims + NumberOfValidChars]
  }

  /** The id a one-hot block encodes: the first position, from `from` on, that holds 1. */
  function HotIndex(block: seq<real>, from: nat): (r: Option<int>)
    requires from <= |block|
    ensures r.Some? ==> from <= r.value < |block| && block[r.value] == 1.0
    ensures r.None? <==> forall k :: from <= k < |block| ==> block[k] != 1.0
    decreases |block| - from
  {
    if from == |block| then None
    else if block[from] == 1.0 then Some(from)
    else HotIndex(block, from + 1)
  }

  /** The request as `infer` prepares it before any tensor work: either the
      character is rejected, or the layer stack's input vector. */
  function PrepareInput(charIdMap: map<char, int>, embedding: seq<real>, s: string): (r: Result<seq<real>>)
    ensures r.Err? <==> LookupCharId(charIdMap, s).Err?
    ensures r.Err? ==> r.error == InvalidCharacterId
    ensures r.Ok? ==> |r.value| == |embedding| + NumberOfValidChars
  {
    match LookupCharId(charIdMap, s)
    case Err(e) => Err(e)
    case Ok(charId) => Ok(NetworkInput(embedding, charId))
  }

  /** Against the finished table, the lookup succeeds exactly for strings whose
      first character is a letter or a digit, and yields that character's id. */
  lemma LookupAgainstTable(m: map<char, int>, s: string)
    requires IsCharIdTable(m)
    ensures LookupCharId(m, s).Ok? <==> |s| > 0 && IsValidChar(s[0])
    ensures LookupCharId(m, s).Ok? ==> LookupCharId(m, s).value == IdOf(s[0])
    ensures LookupCharId(m, s).Err? ==> LookupCharId(m, s).error == InvalidCharacterId
  {
  }

  /** Only the first character of the request string matters. */
  lemma LookupFirstCharOnly(m: map<char, int>, s: string, t: string)
    requires |s| > 0 && |t| > 0 && s[0] == t[0]
    ensures LookupCharId(m, s) == LookupCharId(m, t)
  {
  }

  /** The layout of the input vector: the embedding prefix is unchanged, the
      block after it has length 62 with a 1 exactly at the character's id. */
  lemma NetworkInputLayout(embedding: seq<real>, charId: int)
    requires 0 <= charId < NumberOfValidChars
    ensures |NetworkInput(embedding, charId)| == |embedding| + NumberOfValidChars
    ensures NetworkInput(embedding, charId)[..|embedding|] == embedding
    ensures OneHotPart(NetworkInput(embedding, charId), |embedding|) == OneHot(charId, NumberOfValidChars)
    ensures NetworkInput(embedding, charId)[|embedding| + charId] == 1.0
    ensures forall k :: 0 <= k < NumberOfValidChars ==>
              (OneHotPart(NetworkInput(embedding, charId), |embedding|)[k] == 1.0 <==> k == charId)
    ensures forall k :: 0 <= k < NumberOfValidChars && k != charId ==>
              OneHotPart(NetworkInput(embedding, charId), |embedding|)[k] == 0.0
  {
  }

  /** Decoding the one-hot block of an input vector gives back the id it encodes. */
  lemma HotIndexOfNetworkInput(embedding: seq<real>, charId: int)
    requires 0 <= charId < NumberOfValidChars
    ensures HotIndex(OneHotPart(NetworkInput(embedding, charId), |embedding|), 0) == Some(charId)
  {
    NetworkInputLayout(embedding, charId);
    HotIndexSkips(OneHot(charId, NumberOfValidChars), 0, charId);
  }

  /** The search passes over the leading zeros and stops at the first 1. */
  lemma {:induction false} HotIndexSkips(block: seq<real>, from: nat, id: int)
    requires from <= id < |block|
    requires block[id] == 1.0
    requires forall k :: from <= k < id ==> block[k] != 1.0
    ensures HotIndex(block, from) == Some(id)
    decreases id - from
  {
    if from < id {
      HotIndexSkips(block, from + 1, id);
    }
  }

  /** Different ids give different input vectors for the same embedding, so the
      network can tell the characters apart. */
  lemma NetworkInputInjective(embedding: seq<real>, a: int, b: int)
    requires 0 <= a < NumberOfValidChars && 0 <= b < NumberOfValidChars
    ensures NetworkInput(embedding, a) == NetworkInput(embedding, b) <==> a == b
  {
    HotIndexOfNetworkInput(embedding, a);
    HotIndexOfNetworkInput(embedding, b);
  }

  /** Preparing a request fails before any tensor work exactly when the first
      character is missing or unsupported; otherwise the input decodes back to
      the embedding and the character's id. */
  lemma PrepareInputSpec(m: map<char, int>, embedding: seq<real>, s: string)
    requires IsCharIdTable(m)
    ensures PrepareInput(m, embedding, s).Err? <==> |s| == 0 || !IsValidChar(s[0])
    ensures PrepareInput(m, embedding, s).Err? ==> PrepareInput(m, embedding, s).error == InvalidCharacterId
    ensures PrepareInput(m, embedding, s).Ok? ==>
              var input := PrepareInput(m, embedding, s).value;
              |input| == |embedding| + NumberOfValidChars &&
              input[..|embedding|] == embedding &&
              HotIndex(OneHotPart(input, |embedding|), 0) == Some(IdOf(s[0]))
    ensures PrepareInput(m, embedding, s).Ok? ==>
              PrepareInput(m, embedding, s).value == NetworkInput(embedding, IdOf(s[0]))
  {
    LookupAgainstTable(m, s);
    if |s| > 0 && IsValidChar(s[0]) {
      NetworkInputLayout(embedding, IdOf(s[0]));
      HotIndexOfNetworkInput(embedding, IdOf(s[0]));
    }
  }
}
