// Mail verification codes and the small string helpers beside them
// (internal/pkg/jwt/email.go). Sending mail and the file system are outside
// the model; the random digits and the current instant are parameters.
module VerifyCode {
  import opened Results
  import opened Text

  const CodeLength := 6
  /** `5 * time.Minute`, in nanoseconds. */
  const CodeTtl := 5 * 60 * 1000000000

  datatype CodeError =
    | DrawFailed      // "生成验证码失败"
    | CodeInvalid     // "验证码无效": nothing stored for this address
    | CodeExpired     // "验证码已过期"
    | CodeWrong       // "验证码错误"

  function DigitChar(d: int): (c: char)
    requires 0 <= d < 10
    ensures IsDigit(c)
  {
    ('0' as int + d) as char
  }

  /** The code a run of draws spells, one decimal digit per draw. */
  function Spell(draws: seq<int>): (r: string)
    requires forall i :: 0 <= i < |draws| ==> 0 <= draws[i] < 10
    ensures |r| == |draws|
    ensures forall i :: 0 <= i < |r| ==> IsDigit(r[i]) && r[i] as int - '0' as int == draws[i]
  {
    seq(|draws|, i requires 0 <= i < |draws| => DigitChar(draws[i]))
  }

  /** `GenerateVerifyCode`: six draws from `rand.Int(rand.Reader, 10)`,
      each appended as one digit; `None` stands for a failed draw, which
      ends generation. */
  method GenerateVerifyCode(draws: seq<Option<int>>) returns (r: Result<string, CodeError>)
    requires |draws| >= CodeLength
    requires forall i :: 0 <= i < |draws| && draws[i].Some? ==> 0 <= draws[i].value < 10
    ensures r.Ok? <==> forall i :: 0 <= i < CodeLength ==> draws[i].Some?
    ensures r.Err? ==> r.error == DrawFailed
    ensures r.Ok? ==> |r.value| == CodeLength
    ensures r.Ok? ==> forall i :: 0 <= i < CodeLength ==>
      IsDigit(r.value[i]) && r.value[i] as int - '0' as int == draws[i].value
  {
    var code: string := [];
    var i := 0;
    while i < CodeLength
      invariant 0 <= i <= CodeLength
      invariant forall j :: 0 <= j < i ==> draws[j].Some?
      invariant |code| == i
      invariant forall j :: 0 <= j < i ==> IsDigit(code[j]) && code[j] as int - '0' as int == draws[j].value
    {
      if draws[i].None? {
        return Err(DrawFailed);
      }
      code := code + [DigitChar(draws[i].value)];
      i := i + 1;
    }
    r := Ok(code);
  }

  /** `codeItem`: a code and the instant it stops being valid. */
  datatype CodeItem = CodeItem(code: string, expireAt: int)

  /** One verification against a store: the outcome and the store after it. */
  function Check(entries: map<string, CodeItem>, email: string, input: string, now: int): (r: (Option<CodeError>, map<string, CodeItem>))
    ensures email !in entries ==> r == (Some(CodeInvalid), entries)
    ensures email in entries && now > entries[email].expireAt ==> r == (Some(CodeExpired), entries - {email})
    ensures email in entries && now <= entries[email].expireAt && entries[email].code != input ==>
      r == (Some(CodeWrong), entries)
    ensures r.0.None? <==> email in entries && now <= entries[email].expireAt && entries[email].code == input
    ensures r.0.None? ==> r.1 == entries - {email}
  {
    if email !in entries then (Some(CodeInvalid), entries)
    else if now > entries[email].expireAt then (Some(CodeExpired), entries - {email})
    else if entries[email].code != input then (Some(CodeWrong), entries)
    else (None, entries - {email})
  }

  /** A code that succeeded can never succeed again: the second attempt
      finds nothing, whatever it is and whenever it comes. */
  lemma NoReplay(entries: map<string, CodeItem>, email: string, input: string, now: int, input': string, now': int)
    requires Check(entries, email, input, now).0.None?
    ensures Check(Check(entries, email, input, now).1, email, input', now') == (Some(CodeInvalid), Check(entries, email, input, now).1)
  {
  }

  /** A wrong guess keeps the entry, so the right code still works later
      within its lifetime. */
  lemma RetryAfterWrongCode(entries: map<string, CodeItem>, email: string, guess: string, now: int, now': int)
    requires Check(entries, email, guess, now).0 == Some(CodeWrong)
    requires now' <= entries[email].expireAt
    ensures Check(Check(entries, email, guess, now).1, email, entries[email].code, now').0.None?
  {
  }

  /** The global `codeStore` map from address to item. */
  class CodeStore {
    var entries: map<string, CodeItem>

    constructor ()
      ensures entries == map[]
    {
      entries := map[];
    }

    /** `saveCodeToMap`: the code expires five minutes after `now` and
        replaces anything stored for the address before. */
    method Save(email: string, code: string, now: int)
      modifies this
      ensures entries == old(entries)[email := CodeItem(code, now + CodeTtl)]
    {
      entries := entries[email := CodeItem(code, now + CodeTtl)];
    }

    /** `VerifyCodeFromMap`: a missing entry fails and changes nothing; an
        entry past its expiry is deleted and fails even when the code
        matches; a wrong code fails and keeps the entry; the right code
        succeeds and deletes the entry. */
    method Verify(email: string, input: string, now: int) returns (err: Option<CodeError>)
      modifies this
      ensures (err, entries) == Check(old(entries), email, input, now)
    {
      if email !in entries {
        return Some(CodeInvalid);
      }
      var item := entries[email];
      if now > item.expireAt {
        entries := entries - {email};
        return Some(CodeExpired);
      }
      if item.code != input {
        return Some(CodeWrong);
      }
      entries := entries - {email};
      err := None;
    }
  }

  /** A code just saved is accepted for five minutes and refused after. */
  lemma SaveThenCheck(entries: map<string, CodeItem>, email: string, code: string, now: int, later: int)
    requires now <= later
    ensures var saved := entries[email := CodeItem(code, now + CodeTtl)];
      && (later <= now + CodeTtl ==> Check(saved, email, code, later) == (None, entries - {email}))
      && (later > now + CodeTtl ==> Check(saved, email, code, later).0 == Some(CodeExpired))
  {
    var saved := entries[email := CodeItem(code, now + CodeTtl)];
    assert saved - {email} == entries - {email};
  }

  // ---------------------------------------------------------------------
  // `base64Encode`, which writes lower-case hexadecimal.

  const HexDigits: string := "0123456789abcdef"

  /** `fmt.Sprintf("%x", b)`: two lower-case hex digits per byte. */
  function HexEncode(b: seq<byte>): (r: string)
    ensures |r| == 2 * |b|
    ensures forall i :: 0 <= i < |r| ==> r[i] in HexDigits
  {
    if b == [] then [] else [HexDigits[b[0] / 16], HexDigits[b[0] % 16]] + HexEncode(b[1..])
  }

  /** The value of one lower-case hex digit. */
  function HexValue(c: char): (r: Option<int>)
    ensures r.Some? <==> c in HexDigits
    ensures r.Some? ==> 0 <= r.value < 16 && HexDigits[r.value] == c
  {
    if '0' <= c <= '9' then Some(c as int - '0' as int)
    else if 'a' <= c <= 'f' then Some(c as int - 'a' as int + 10)
    else None
  }

  /** The inverse of `HexEncode`: pairs of lower-case hex digits. */
  function HexDecode(s: string): (r: Option<seq<byte>>)
    ensures r.Some? ==> 2 * |r.value| == |s|
    decreases |s|
  {
    if s == [] then Some([])
    else if |s| < 2 then None
    else
      var hi, lo, rest := HexValue(s[0]), HexValue(s[1]), HexDecode(s[2..]);
      if hi.Some? && lo.Some? && rest.Some? then Some([16 * hi.value + lo.value] + rest.value) else None
  }

  lemma HexValueOfDigit(n: int)
    requires 0 <= n < 16
    ensures HexValue(HexDigits[n]) == Some(n)
  {
  }

  /** Decoding reads back every byte encoded. */
  lemma {:induction false} HexRoundTrip(b: seq<byte>)
    ensures HexDecode(HexEncode(b)) == Some(b)
  {
    if b != [] {
      HexRoundTrip(b[1..]);
      var hi, lo := b[0] / 16, b[0] % 16;
      DecodePair(hi, lo, HexEncode(b[1..]));
      assert 16 * hi + lo == b[0];
      assert b == [b[0]] + b[1..];
    }
  }

  /** Two hex digits in front of decodable text decode to their byte in
      front of that text's decoding. */
  lemma DecodePair(hi: int, lo: int, s: string)
    requires 0 <= hi < 16 && 0 <= lo < 16
    requires HexDecode(s).Some?
    ensures HexDecode([HexDigits[hi], HexDigits[lo]] + s) == Some([16 * hi + lo] + HexDecode(s).value)
  {
    var t := [HexDigits[hi], HexDigits[lo]] + s;
    HexValueOfDigit(hi);
    HexValueOfDigit(lo);
    assert t[0] == HexDigits[hi] && t[1] == HexDigits[lo] && t[2..] == s;
    var d := HexDecode(t).value;
    assert d[0] == 16 * hi + lo && d[1..] == HexDecode(s).value;
    assert d == [d[0]] + d[1..];
  }

  /** Encoding what decoded gives the text back, so lower-case hex text
      has exactly one decoding. */
  lemma {:induction false} HexRoundTripText(s: string)
    requires HexDecode(s).Some?
    ensures HexEncode(HexDecode(s).value) == s
    decreases |s|
  {
    if s != [] {
      var b := HexDecode(s).value;
      HexRoundTripText(s[2..]);
      var hi, lo := HexValue(s[0]).value, HexValue(s[1]).value;
      assert b[0] / 16 == hi && b[0] % 16 == lo;
      assert b[1..] == HexDecode(s[2..]).value;
      assert s == [s[0], s[1]] + s[2..];
    }
  }

  // ---------------------------------------------------------------------
  // `DeleteMdFile`: from the public URL to the local path.

  const MdUrlPrefix: string := "http://localhost:8080/uploads/md/"
  const MdLocalDir: string := "./uploads/md/"

  /** The local path of a markdown file's URL, or `None` for a URL outside
      the markdown prefix ("MD文件URL格式非法"). */
  function MdLocalPath(url: string): (r: Option<string>)
    ensures r.Some? <==> StartsWith(url, MdUrlPrefix)
    ensures r.Some? ==> r.value == MdLocalDir + url[|MdUrlPrefix|..]
  {
    if !StartsWith(url, MdUrlPrefix) then None else Some(MdLocalDir + url[|MdUrlPrefix|..])
  }

  /** Every URL under the prefix maps to the same tail under the local
      directory, and distinct URLs map to distinct paths. */
  lemma MdLocalPathOf(rest: string, rest': string)
    ensures MdLocalPath(MdUrlPrefix + rest) == Some(MdLocalDir + rest)
    ensures MdLocalPath(MdUrlPrefix + rest) == MdLocalPath(MdUrlPrefix + rest') ==> rest == rest'
  {
    var u := MdUrlPrefix + rest;
    assert u[..|MdUrlPrefix|] == MdUrlPrefix;
    assert u[|MdUrlPrefix|..] == rest;
    var u' := MdUrlPrefix + rest';
    assert u'[..|MdUrlPrefix|] == MdUrlPrefix;
    assert u'[|MdUrlPrefix|..] == rest';
    if MdLocalDir + rest == MdLocalDir + rest' {
      assert rest == (MdLocalDir + rest)[|MdLocalDir|..];
      assert rest' == (MdLocalDir + rest')[|MdLocalDir|..];
    }
  }
}
