/**
 The image store (internal/media/artwork/artwork.go): bytes reach a temporary name first and are
 moved to their final name only when complete. The cache directory is a map from path to bytes, and
 the digest a parameter.
 */
module ArtworkStore {
  import opened Text

  type Bytes = seq<bv8>
  type Digest = Bytes -> string

  const DEFAULT_MAX_BYTES: nat := 33_554_432

  /** The two kinds of name the store uses; the item and the type fix the directory and the stem. */
  datatype Path =
    | Temp(item: nat, imageType: string, nonce: nat)
    | Final(item: nat, imageType: string, ext: string)

  type Files = map<Path, Bytes>

  /** One item's image of one type. */
  datatype Key = Key(item: nat, imageType: string)

  /** Letter case and whitespace, as `strings.ToLower` and `strings.TrimSpace` take them. */
  datatype Letters = Letters(lower: char -> char, space: char -> bool)

  function NormalizeContentType(letters: Letters, contentType: string): string
  {
    Lower(letters.lower, TrimSpace(letters.space, Cut(contentType, ';').before))
  }

  function ExtensionFor(letters: Letters, contentType: string): Option<string>
  {
    var t := NormalizeContentType(letters, contentType);
    if t == "image/jpeg" then Some(".jpg")
    else if t == "image/png" then Some(".png")
    else if t == "image/webp" then Some(".webp")
    else None
  }

  /** A response body: the bytes it delivers, and whether it then fails instead of ending. */
  datatype Body = Body(data: Bytes, fails: bool)

  /** The system call that fails, if one does. */
  datatype Fault = NoFault | AtMkdir | AtCreate | AtWrite | AtSync | AtRename

  datatype SaveError = NotAnImage | DiskError | DownloadError | TooLarge | Empty

  datatype Saved = Saved(path: Path, tag: string, contentType: string, bytes: nat)

  datatype SaveResult = Stored(saved: Saved) | Refused(error: SaveError)

  /** What copying at most one byte past the cap leaves in the file. */
  function Copied(max: nat, body: Body): Bytes
  {
    if |body.data| <= max then body.data else body.data[..max + 1]
  }

  /** Whether a body arrives whole: it ends by itself, is not empty and fits under the cap. */
  predicate Whole(max: nat, body: Body)
  {
    !body.fails && 0 < |body.data| <= max
  }

  /** The first thing that goes wrong while copying, when something does. */
  function CopyError(max: nat, body: Body, fault: Fault): SaveError
  {
    if fault.AtWrite? then DiskError
    else if body.fails && |body.data| <= max then DownloadError
    else if |body.data| > max then TooLarge
    else if |body.data| == 0 then Empty
    else DiskError
  }

  function Attempt(letters: Letters, hash: Digest, max: nat, item: nat, imageType: string, contentType: string,
                   body: Body, fault: Fault): SaveResult
  {
    match ExtensionFor(letters, contentType)
    case None => Refused(NotAnImage)
    case Some(ext) =>
      if fault.AtMkdir? || fault.AtCreate? then Refused(DiskError)
      else if !Whole(max, body) || fault.AtWrite? || fault.AtSync? then Refused(CopyError(max, body, fault))
      else if fault.AtRename? then Refused(DiskError)
      else
        var stored := NormalizeContentType(letters, contentType);
        Stored(Saved(Final(item, imageType, ext), hash(body.data), stored, |body.data|))
  }

  /** An image is stored exactly when its type is known, it arrives whole and no system call fails. */
  lemma StoredExactly(letters: Letters, hash: Digest, max: nat, item: nat, imageType: string, contentType: string,
                      body: Body, fault: Fault)
    ensures var r := Attempt(letters, hash, max, item, imageType, contentType, body, fault);
      && (r.Stored? <==> ExtensionFor(letters, contentType).Some? && Whole(max, body) && fault.NoFault?)
      && (r.Stored? ==>
            && r.saved.path == Final(item, imageType, ExtensionFor(letters, contentType).value)
            && r.saved.tag == hash(body.data))
  {
  }

  class Store {
    const letters: Letters
    const hash: Digest
    const max: nat
    var files: Files

    /** A zero cap means the default one. */
    constructor (letters: Letters, hash: Digest, maxBytes: nat)
      ensures this.letters == letters && this.hash == hash && files == map[]
      ensures max == if maxBytes == 0 then DEFAULT_MAX_BYTES else maxBytes
    {
      this.letters, this.hash := letters, hash;
      max := if maxBytes == 0 then DEFAULT_MAX_BYTES else maxBytes;
      files := map[];
    }

    /** Copy the body into a file already created, and check what arrived. */
    method WriteTemp(tmp: Path, body: Body, fault: Fault) returns (r: Option<SaveError>)
      requires tmp in files
      modifies this
      ensures files.Keys == old(files.Keys) && files == old(files)[tmp := files[tmp]]
      ensures r == None <==> Whole(max, body) && !fault.AtWrite? && !fault.AtSync?
      ensures r == None ==> files[tmp] == body.data
      ensures r.Some? ==> r.value == CopyError(max, body, fault)
    {
      if fault.AtWrite? {
        return Some(DiskError);
      }
      files := files[tmp := Copied(max, body)];
      var size := |files[tmp]|;
      if body.fails && size <= max {
        return Some(DownloadError);
      }
      if size > max {
        return Some(TooLarge);
      }
      if size == 0 {
        return Some(Empty);
      }
      if fault.AtSync? {
        return Some(DiskError);
      }
      r := None;
    }

    /**
     All or nothing: a save that fails leaves every file as it was, its own temporary one included;
     a save that succeeds changes the final name alone, to the whole body.
     */
    method Save(item: nat, imageType: string, contentType: string, body: Body, fault: Fault,
                nonce: nat) returns (r: SaveResult)
      requires Temp(item, imageType, nonce) !in files
      modifies this
      ensures r == Attempt(letters, hash, max, item, imageType, contentType, body, fault)
      ensures r.Refused? ==> files == old(files)
      ensures r.Stored? ==> Whole(max, body) && files == old(files)[r.saved.path := body.data]
    {
      var ext := ExtensionFor(letters, contentType);
      if ext.None? {
        return Refused(NotAnImage);
      }
      if fault.AtMkdir? || fault.AtCreate? {
        return Refused(DiskError);
      }
      var tmp := Temp(item, imageType, nonce);
      files := files[tmp := []];
      var failed := WriteTemp(tmp, body, fault);
      if failed.Some? {
        files := files - {tmp};
        return Refused(failed.value);
      }
      var final := Final(item, imageType, ext.value);
      if fault.AtRename? {
        files := files - {tmp};
        return Refused(DiskError);
      }
      var written := files[tmp];
      files := files[final := written] - {tmp};
      r := Stored(Saved(final, hash(written), NormalizeContentType(letters, contentType), |written|));
    }

    function Exists(path: Path): bool
      reads this
    {
      path in files
    }

    /** Remove the leftover temporary files, and nothing else; one that cannot be removed stays. */
    method Sweep(stuck: set<Path>) returns (removed: nat)
      modifies this
      ensures files == Swept(old(files), stuck)
      ensures removed == |old(files)| - |files|
    {
      removed := 0;
      var left := files.Keys;
      while left != {}
        invariant left <= files.Keys <= old(files.Keys)
        invariant forall p :: p in files ==> files[p] == old(files)[p]
        invariant forall p :: p in old(files) && (p in left || p.Final? || p in stuck) ==> p in files
        invariant forall p :: p in files && p !in left ==> p.Final? || p in stuck
        invariant removed == |old(files)| - |files|
        decreases |left|
      {
        var p :| p in left;
        left := left - {p};
        if p.Temp? && p !in stuck {
          assert (files - {p}).Keys == files.Keys - {p};
          files := files - {p};
          removed := removed + 1;
        }
      }
    }
  }

  function Swept(files: Files, stuck: set<Path>): Files
  {
    map p | p in files && (p.Final? || p in stuck) :: files[p]
  }

  lemma SweptSubset(files: Files, stuck: set<Path>)
    ensures forall p :: p in Swept(files, stuck) ==> p in files
  {
  }

  // ---- types and failures, spelled out ----


  /** A header's parameters, the blanks around the type and its casing play no part. */
  lemma TypeRead(letters: Letters, before: string, name: string, after: string, parameters: Option<string>)
    requires AllSpace(letters.space, before) && AllSpace(letters.space, after)
    requires name != "" && Trimmed(letters.space, name)
    requires ';' !in before + (name + after)
    ensures var header := before + (name + after) + (if parameters.Some? then [';'] + parameters.value else "");
      && NormalizeContentType(letters, header) == Lower(letters.lower, name)
      && ExtensionFor(letters, header) ==
         var t := Lower(letters.lower, name);
         if t == "image/jpeg" then Some(".jpg")
         else if t == "image/png" then Some(".png")
         else if t == "image/webp" then Some(".webp")
         else None
  {
    hide Lower, Cut;
    var value := before + (name + after);
    var header := value + (if parameters.Some? then [';'] + parameters.value else "");
    if parameters.Some? {
      assert header == value + [';'] + parameters.value;
      CutAtFirst(value, parameters.value, ';');
    } else {
      assert header == value;
    }
    TrimBlanks(letters.space, before, name, after);
  }

  /** Why an image is not stored: the type first, then the first step that fails. */
  lemma RefusedExactly(letters: Letters, hash: Digest, max: nat, item: nat, imageType: string, contentType: string,
                       body: Body, fault: Fault)
    ensures var r := Attempt(letters, hash, max, item, imageType, contentType, body, fault);
      if ExtensionFor(letters, contentType).None? then r == Refused(NotAnImage)
      else if fault.AtMkdir? || fault.AtCreate? || fault.AtWrite? then r == Refused(DiskError)
      else if body.fails && |body.data| <= max then r == Refused(DownloadError)
      else if |body.data| > max then r == Refused(TooLarge)
      else if |body.data| == 0 then r == Refused(Empty)
      else if fault.AtSync? || fault.AtRename? then r == Refused(DiskError)
      else
        r.Stored? && r.saved.bytes == |body.data| && r.saved.contentType == NormalizeContentType(letters, contentType)
  {
    hide NormalizeContentType, ExtensionFor;
  }
}
