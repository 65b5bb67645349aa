/**
 * Content revisions and the two ways a client pins a write to what it read
 * (src/obsidian_mcp/storage/revisions.py).
 */
module Revisions {
  import opened Text

  newtype byte = x: int | 0 <= x < 256

  type Bytes = seq<byte>

  /** The revision token of a file is a digest of its bytes. */
  type Hash = Bytes -> string

  /** SHA-256 taken as collision-free. */
  ghost predicate Injective(hash: Hash) {
    forall a, b :: hash(a) == hash(b) ==> a == b
  }

  datatype RevisionError = NotFound | Conflict | PreconditionRequired

  /** The leaf holds content with this token. */
  predicate Holds(leaf: Option<Bytes>, token: string, hash: Hash) {
    leaf.Some? && hash(leaf.value) == token
  }

  /** read_text_for_update: the bytes read and the token to hand to the write. */
  function ReadForUpdate(leaf: Option<Bytes>, expected: Option<string>, hash: Hash)
    : Result<(Bytes, string), RevisionError>
  {
    match leaf
    case None => Err(NotFound)
    case Some(content) =>
      if expected.Some? && hash(content) != expected.value then Err(Conflict)
      else Ok((content, hash(content)))
  }

  /** prepare_full_write: the pin (or none) and whether the write may only create. */
  function PrepareFullWrite(
      leaf: Option<Bytes>, expected: Option<string>, createOnly: bool, strict: bool, hash: Hash)
    : Result<(Option<string>, bool), RevisionError>
  {
    match leaf
    case None => if expected.Some? then Err(Conflict) else Ok((None, true))
    case Some(content) =>
      if createOnly then Err(Conflict)
      else if expected.None? then
        if strict then Err(PreconditionRequired) else Ok((Some(hash(content)), false))
      else if hash(content) != expected.value then Err(Conflict)
      else Ok((expected, false))
  }

  /**
   * Whatever a client is told to write with, it is pinned: either to the content it saw, or to there
   * being no file. With a caller's token, success means the caller's token is the current one.
   */
  lemma ClientsArePinned(leaf: Option<Bytes>, expected: Option<string>, createOnly: bool, strict: bool, hash: Hash)
    ensures var r := PrepareFullWrite(leaf, expected, createOnly, strict, hash);
            && (r.Ok? ==> r.value.1 == leaf.None? && r.value.0 == (if leaf.None? then None else Some(hash(leaf.value))))
            && (r.Ok? <==> if leaf.None? then expected.None?
                           else !createOnly && (if expected.None? then !strict else Holds(leaf, expected.value, hash)))
    ensures var r := ReadForUpdate(leaf, expected, hash);
            && (r.Ok? ==> leaf == Some(r.value.0) && Holds(leaf, r.value.1, hash))
            && (r.Ok? <==> leaf.Some? && (expected.None? || Holds(leaf, expected.value, hash)))
  {
  }
}
