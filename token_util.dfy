// Token cleaning, the avatar upload checks and the size-limited writer
// (internal/pkg/jwt/jwt.go). Signing and verifying tokens, password hashing
// and the file system are outside the model.
module TokenUtil {
  import opened Results
  import opened Text

  // ---------------------------------------------------------------------
  // CleanToken and the empty-token check of ParseToken.

  const BearerPrefix: string := "bearer "

  /** `CleanToken`: trims white space, then drops a leading "bearer " in
      any letter case, once, when the trimmed token is longer than it. */
  function CleanToken(s: string): (r: string)
    ensures var t := TrimSpace(s);
      && |r| <= |t| && r == t[|t| - |r|..]
      && (|t| <= |BearerPrefix| ==> r == t)
      && (r != t ==> |r| == |t| - |BearerPrefix| && EqualFold(t[..|BearerPrefix|], BearerPrefix))
    ensures var t := TrimSpace(s);
      |t| > |BearerPrefix| && EqualFold(t[..|BearerPrefix|], BearerPrefix) ==> r == t[|BearerPrefix|..]
  {
    var t := TrimSpace(s);
    if |t| > |BearerPrefix| && EqualFold(t[..|BearerPrefix|], BearerPrefix) then t[|BearerPrefix|..] else t
  }

  lemma BearerFolds()
    ensures EqualFold("Bearer ", BearerPrefix)
  {
    assert ToLower("Bearer ") == BearerPrefix;
  }

  /** A trimmed header that starts with "Bearer " loses exactly that. */
  lemma CleanBearerHeader(h: string)
    requires |h| > 7 && h[..7] == "Bearer " && !IsSpace(h[|h| - 1])
    ensures CleanToken(h) == h[7..]
  {
    TrimSpaceOfTrimmed(h);
    BearerFolds();
  }

  /** A header written as "Bearer " and a token gives back the token. */
  lemma CleanTokenOfHeader(token: string)
    requires token != [] && !IsSpace(token[|token| - 1])
    ensures CleanToken("Bearer " + token) == token
  {
    var h := "Bearer " + token;
    assert h[..7] == "Bearer ";
    assert h[7..] == token;
    CleanBearerHeader(h);
  }

  /** The prefix goes once: a token that itself starts with "Bearer "
      keeps it. */
  lemma CleanTokenStripsOnce(token: string)
    requires token != [] && !IsSpace(token[|token| - 1])
    ensures CleanToken("Bearer " + ("Bearer " + token)) == "Bearer " + token
  {
    var h := "Bearer " + token;
    assert h != [] && h[|h| - 1] == token[|token| - 1];
    CleanTokenOfHeader(h);
  }

  /** Cleaning empties a token exactly when it is blank: a stripped prefix
      always leaves something behind. */
  lemma CleanTokenEmptyIff(s: string)
    ensures CleanToken(s) == "" <==> IsBlank(s)
  {
    TrimSpaceEmptyIff(s);
  }

  datatype TokenError = EmptyToken   // "token为空"

  /** The part of `ParseToken` before decoding: the cleaned token, or
      `EmptyToken`. */
  function ParseTokenInput(s: string): (r: Result<string, TokenError>)
    ensures r.Err? <==> IsBlank(s)
    ensures r.Ok? ==> r.value == CleanToken(s) && r.value != ""
  {
    CleanTokenEmptyIff(s);
    var t := CleanToken(s);
    if t == "" then Err(EmptyToken) else Ok(t)
  }

  // ---------------------------------------------------------------------
  // sizeLimitWriter and the copy that feeds it.

  datatype WriteError = SizeExceeded   // `errSizeExceed`

  /** `sizeLimitWriter` over a destination that accepts every byte it is
      given; `sink` is what the destination has received. */
  class SizeLimitWriter {
    const maxSize: int
    var written: int
    var sink: seq<byte>

    ghost predicate Valid()
      reads this
    {
      0 <= written <= maxSize && written == |sink|
    }

    constructor (maxSize: nat)
      ensures Valid() && this.maxSize == maxSize && written == 0 && sink == []
    {
      this.maxSize := maxSize;
      written := 0;
      sink := [];
    }

    /** `Write`: a chunk that would take `written` past `maxSize` is refused
        whole; any other chunk is passed on and counted. */
    method Write(p: seq<byte>) returns (n: nat, err: Option<WriteError>)
      requires Valid()
      modifies this
      ensures Valid()
      ensures old(written) + |p| > maxSize ==>
        n == 0 && err == Some(SizeExceeded) && written == old(written) && sink == old(sink)
      ensures old(written) + |p| <= maxSize ==>
        n == |p| && err.None? && written == old(written) + |p| && sink == old(sink) + p
    {
      if written + |p| > maxSize {
        return 0, Some(SizeExceeded);
      }
      sink := sink + p;
      written := written + |p|;
      n, err := |p|, None;
    }
  }

  /** The buffer `io.Copy` reads into. */
  const CopyBuffer := 32 * 1024

  /** `io.Copy(w, content)`, the source filling every buffer: chunks go to
      the writer until the content ends or a chunk is refused. */
  method Copy(w: SizeLimitWriter, content: seq<byte>) returns (total: nat, err: Option<WriteError>)
    requires w.Valid()
    modifies w
    ensures w.Valid()
    ensures err.None? <==> old(w.written) + |content| <= w.maxSize
    ensures err.None? ==> total == |content| && w.sink == old(w.sink) + content
    ensures err.Some? ==> total <= |content| && w.sink == old(w.sink) + content[..total]
  {
    total := 0;
    while total < |content|
      invariant w.Valid()
      invariant 0 <= total <= |content|
      invariant w.written == old(w.written) + total
      invariant w.sink == old(w.sink) + content[..total]
      decreases |content| - total
    {
      var end := if total + CopyBuffer <= |content| then total + CopyBuffer else |content|;
      var n, e := w.Write(content[total..end]);
      if e.Some? {
        return total, e;
      }
      assert content[..total] + content[total..end] == content[..end];
      total := end;
    }
    assert content[..total] == content;
    err := None;
  }

  // ---------------------------------------------------------------------
  // SaveAvatar.

  const AvatarBaseUrl: string := "/static/avatars/"
  const MaxAvatarSize := 2 * 1024 * 1024
  const AllowAvatarExts: string := ".jpg,.jpeg,.png"

  /** `filepath.Ext` with '/' as separator: the suffix from the final dot
      of the final path element, or "". */
  function Ext(path: string): (r: string)
    ensures r == [] || (r[0] == '.' && |r| <= |path| && r == path[|path| - |r|..])
    ensures forall i :: 1 <= i < |r| ==> r[i] != '.' && r[i] != '/'
  {
    if path == [] || path[|path| - 1] == '/' then []
    else if path[|path| - 1] == '.' then "."
    else
      var e := Ext(path[..|path| - 1]);
      if e == [] then [] else e + [path[|path| - 1]]
  }

  /** A dot followed by neither a dot nor a separator starts the extension. */
  lemma {:induction false} ExtAtLastDot(path: string, k: int)
    requires 0 <= k < |path| && path[k] == '.'
    requires forall i :: k < i < |path| ==> path[i] != '.' && path[i] != '/'
    ensures Ext(path) == path[k..]
  {
    if k < |path| - 1 {
      var init := path[..|path| - 1];
      ExtAtLastDot(init, k);
      assert path[k..] == init[k..] + [path[|path| - 1]];
    }
  }

  /** The lower-cased extension `SaveAvatar` checks and keeps. */
  function AvatarExt(fileName: string): string {
    ToLower(Ext(fileName))
  }

  datatype AvatarError =
    | NilFile               // "头像文件为空"
    | NoExtension           // "头像文件无后缀，无法识别格式"
    | BadFormat(ext: string) // "不支持的头像格式"
    | TooLarge              // "头像文件超过2MB限制"
    | EmptyContent          // "头像文件内容为空"

  /** `SaveAvatar`: the extension checks, then the content copied through a
      size-limited writer; the URL names the file by `fileId` (the
      generated uuid) and the extension. */
  method SaveAvatar(hasFile: bool, fileName: string, fileId: string, content: seq<byte>)
    returns (r: Result<string, AvatarError>)
    ensures !hasFile ==> r == Err(NilFile)
    ensures hasFile && AvatarExt(fileName) == "" ==> r == Err(NoExtension)
    ensures hasFile && AvatarExt(fileName) != "" && !Contains(AllowAvatarExts, AvatarExt(fileName)) ==>
      r == Err(BadFormat(AvatarExt(fileName)))
    ensures (hasFile && AvatarExt(fileName) != "" && Contains(AllowAvatarExts, AvatarExt(fileName))) ==> (
      && (|content| > MaxAvatarSize ==> r == Err(TooLarge))
      && (|content| == 0 ==> r == Err(EmptyContent)))
    ensures r.Ok? <==>
      hasFile && AvatarExt(fileName) != "" && Contains(AllowAvatarExts, AvatarExt(fileName)) &&
      0 < |content| <= MaxAvatarSize
    ensures r.Ok? ==> r.value == AvatarBaseUrl + fileId + AvatarExt(fileName)
  {
    if !hasFile {
      return Err(NilFile);
    }
    var ext := AvatarExt(fileName);
    if ext == "" {
      return Err(NoExtension);
    }
    if !Contains(AllowAvatarExts, ext) {
      return Err(BadFormat(ext));
    }
    r := StoreAvatar(fileId, ext, content);
  }

  /** The part of `SaveAvatar` after the extension checks: the content goes
      through a writer limited to `MaxAvatarSize`, and an empty copy is
      refused. */
  method StoreAvatar(fileId: string, ext: string, content: seq<byte>) returns (r: Result<string, AvatarError>)
    ensures |content| > MaxAvatarSize ==> r == Err(TooLarge)
    ensures |content| == 0 ==> r == Err(EmptyContent)
    ensures r.Ok? <==> 0 < |content| <= MaxAvatarSize
    ensures r.Ok? ==> r.value == AvatarBaseUrl + fileId + ext
  {
    var w := new SizeLimitWriter(MaxAvatarSize);
    var written, e := Copy(w, content);
    if e.Some? {
      return Err(TooLarge);
    }
    if written == 0 {
      return Err(EmptyContent);
    }
    r := Ok(AvatarBaseUrl + fileId + ext);
  }

  /** As written, any piece of the list that starts with a dot passes:
      ".jp", a bare ".", and ".jpg," among others. */
  lemma LooseExtensions()
    ensures AvatarExt("a.jp") == ".jp" && Contains(AllowAvatarExts, ".jp")
    ensures AvatarExt("a.") == "." && Contains(AllowAvatarExts, ".")
    ensures AvatarExt("a.JPG,") == ".jpg," && Contains(AllowAvatarExts, ".jpg,")
  {
    ExtAtLastDot("a.jp", 1);
    ExtAtLastDot("a.", 1);
    ExtAtLastDot("a.JPG,", 1);
    assert OccursAt(AllowAvatarExts, ".jp", 0);
    assert OccursAt(AllowAvatarExts, ".", 0);
    assert OccursAt(AllowAvatarExts, ".jpg,", 0);
    ContainsIff(AllowAvatarExts, ".jp");
    ContainsIff(AllowAvatarExts, ".");
    ContainsIff(AllowAvatarExts, ".jpg,");
  }

  /** The allow-list read as the list it is. */
  predicate AllowedExt(ext: string) {
    ext == ".jpg" || ext == ".jpeg" || ext == ".png"
  }

  /** Every extension of the list passes the check as written, so reading
      it as a list refuses nothing the service means to accept. */
  lemma AllowedExtPasses(ext: string)
    requires AllowedExt(ext)
    ensures Contains(AllowAvatarExts, ext)
  {
    if ext == ".jpg" {
      assert OccursAt(AllowAvatarExts, ext, 0);
    } else if ext == ".jpeg" {
      assert OccursAt(AllowAvatarExts, ext, 5);
    } else {
      assert OccursAt(AllowAvatarExts, ext, 11);
    }
    ContainsIff(AllowAvatarExts, ext);
  }

  /** `SaveAvatar` with the allow-list read as the list it is: only ".jpg",
      ".jpeg" and ".png" (in any letter case) are stored. */
  method SaveListedAvatar(hasFile: bool, fileName: string, fileId: string, content: seq<byte>)
    returns (r: Result<string, AvatarError>)
    ensures !hasFile ==> r == Err(NilFile)
    ensures hasFile && AvatarExt(fileName) == "" ==> r == Err(NoExtension)
    ensures hasFile && AvatarExt(fileName) != "" && !AllowedExt(AvatarExt(fileName)) ==>
      r == Err(BadFormat(AvatarExt(fileName)))
    ensures hasFile && AllowedExt(AvatarExt(fileName)) ==> (
      && (|content| > MaxAvatarSize ==> r == Err(TooLarge))
      && (|content| == 0 ==> r == Err(EmptyContent)))
    ensures r.Ok? <==> hasFile && AllowedExt(AvatarExt(fileName)) && 0 < |content| <= MaxAvatarSize
    ensures r.Ok? ==> r.value == AvatarBaseUrl + fileId + AvatarExt(fileName)
  {
    if !hasFile {
      return Err(NilFile);
    }
    var ext := AvatarExt(fileName);
    if ext == "" {
      return Err(NoExtension);
    }
    if !AllowedExt(ext) {
      return Err(BadFormat(ext));
    }
    r := StoreAvatar(fileId, ext, content);
  }
}
