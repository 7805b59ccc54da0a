/** HMAC-MD5 as section 2 of RFC 2104 defines it, and what a sequence of signing or
    verifying calls amounts to. */
module HmacSpec {
  import opened Basics
  import opened Md5Spec

  function Xor(x: bv8, b: bv8): bv8 {
    x ^ b
  }

  function Xored(s: seq<bv8>, b: bv8): (r: seq<bv8>)
    ensures |r| == |s|
  {
    seq(|s|, i requires 0 <= i < |s| => Xor(s[i], b))
  }

  /** A key longer than a block is replaced by its digest. */
  function Short(key: seq<bv8>): (k: seq<bv8>)
    ensures |k| <= 64
  {
    if |key| > 64 then Digest(key) else key
  }

  function Padded(k: seq<bv8>): (p: seq<bv8>)
    requires |k| <= 64
    ensures |p| == 64
  {
    k + seq(64 - |k|, _ => 0)
  }

  function InnerPad(key: seq<bv8>): (p: seq<bv8>)
    ensures |p| == 64
  {
    Xored(Padded(Short(key)), 0x36)
  }

  function OuterPad(key: seq<bv8>): (p: seq<bv8>)
    ensures |p| == 64
  {
    Xored(Padded(Short(key)), 0x5c)
  }

  function Hmac(key: seq<bv8>, text: seq<bv8>): (d: seq<bv8>)
    ensures |d| == 16
  {
    Digest(OuterPad(key) + Digest(InnerPad(key) + text))
  }

  // ----- calls -----------------------------------------------------------------

  /** What the caller's context pointer stands for: no context, the bytes fed to it,
      or a context that has been freed. */
  datatype Session = Closed | Open(fed: seq<bv8>) | Freed

  datatype Call = Call(init: bool, update: bool, final: bool, data: seq<bv8>)

  /** The bytes the call feeds. */
  function Data(c: Call): seq<bv8> {
    if c.update then c.data else []
  }

  /** The bytes fed once the call has done its INIT and UPDATE parts. */
  function Fed(s: Session, c: Call): seq<bv8>
    requires c.init || s.Open?
  {
    (if c.init then [] else s.fed) + Data(c)
  }

  function SignReturns(s: Session, c: Call, hasKey: bool, hasContext: bool, room: bool): int {
    if !hasKey || (!c.init && !s.Open?) then -1
    else if c.final then if room then 16 else -25
    else if hasContext then 0 else -1
  }

  function VerifyReturns(key: seq<bv8>, s: Session, c: Call, hasKey: bool, hasContext: bool,
                         sig: Option<seq<bv8>>): int {
    if !hasKey || (!c.init && !s.Open?) then -1
    else if c.final then if sig == Some(Hmac(key, Fed(s, c))) then 0 else -28
    else if hasContext then 0 else -1
  }

  /** The session after a call: `done` says that a FINAL got as far as freeing the
      context. A context made by a call that also ends it is never handed out. */
  function After(s: Session, c: Call, hasKey: bool, hasContext: bool, done: bool): Session {
    if !hasKey || (!c.init && !s.Open?) then s
    else if c.final then if c.init then s else if done then Freed else Open(Fed(s, c))
    else if hasContext then Open(Fed(s, c)) else s
  }

  // ----- whole sessions -----------------------------------------------------------

  /** The session after calls that all find a key and a context, and in which no FINAL
      succeeds: each either is not FINAL or finds no room. */
  function Running(s: Session, calls: seq<Call>): Session
    decreases |calls|
  {
    if calls == [] then s else Running(After(s, calls[0], true, true, false), calls[1..])
  }

  function Texts(calls: seq<Call>): seq<bv8> {
    if calls == [] then [] else Data(calls[0]) + Texts(calls[1..])
  }

  lemma {:induction false} RunningFeeds(s: Session, calls: seq<Call>)
    requires s.Open? && forall i :: 0 <= i < |calls| ==> !calls[i].init
    ensures Running(s, calls) == Open(s.fed + Texts(calls))
    decreases |calls|
  {
    if calls == [] {
      assert s.fed + [] == s.fed;
    } else {
      var next := After(s, calls[0], true, true, false);
      RunningFeeds(next, calls[1..]);
      Regroup(s.fed, Data(calls[0]), Texts(calls[1..]));
    }
  }

  /** INIT, any calls that go on with the context, then FINAL: the text signed or
      checked is the data of all of them in order, wherever it was cut, even when
      FINAL had to be repeated for want of room; and a signature made in one session
      is the only one that another session over the same text accepts. */
  lemma {:induction false} SessionsAgree(key: seq<bv8>, s: Session, first: Call, calls: seq<Call>, last: Call)
    requires first.init && !first.final && !last.init && last.final
    requires forall i :: 0 <= i < |calls| ==> !calls[i].init
    ensures var run := Running(s, [first] + calls);
      && run.Open? && Fed(run, last) == Texts([first] + calls + [last])
      && SignReturns(run, last, true, true, true) == 16
    ensures var run := Running(s, [first] + calls);
      forall sig :: VerifyReturns(key, run, last, true, true, sig) == 0 <==>
        sig == Some(Hmac(key, Texts([first] + calls + [last])))
  {
    var all := [first] + calls;
    var begun := After(s, first, true, true, false);
    assert all[1..] == calls;
    RunningFeeds(begun, calls);
    TextsAppend(all, last);
    assert begun.fed + Texts(calls) == Texts(all);
  }

  lemma {:induction false} TextsAppend(calls: seq<Call>, last: Call)
    ensures Texts(calls + [last]) == Texts(calls) + Data(last)
  {
    if calls == [] {
      assert [] + [last] == [last] && [last][1..] == [];
    } else {
      assert (calls + [last])[1..] == calls[1..] + [last];
      TextsAppend(calls[1..], last);
      Regroup(Data(calls[0]), Texts(calls[1..]), Data(last));
    }
  }

  // ----- keys ---------------------------------------------------------------------

  lemma XoredTwice(s: seq<bv8>, b: bv8)
    ensures Xored(Xored(s, b), b) == s
  {
    forall i | 0 <= i < |s|
      ensures Xor(Xor(s[i], b), b) == s[i]
    {
      XorTwice(s[i], b);
    }
  }

  lemma XorTwice(x: bv8, b: bv8)
    ensures Xor(Xor(x, b), b) == x
  {
  }

  /** The DNS form of a key has the same pads as the key, and is the key itself exactly
      when it is no longer than a block. */
  lemma DnsFormKeepsPads(key: seq<bv8>)
    ensures InnerPad(Short(key)) == InnerPad(key) && OuterPad(Short(key)) == OuterPad(key)
    ensures Short(key) == key <==> |key| <= 64
  {
    assert Short(Short(key)) == Short(key);
  }

  /** The key is laid over 64 bytes of one value on the inside and of another on the outside. */
  lemma PadsOf(key: seq<bv8>)
    requires |key| <= 64
    ensures forall i :: 0 <= i < 64 ==> InnerPad(key)[i] == (if i < |key| then key[i] else 0) ^ 0x36
    ensures forall i :: 0 <= i < 64 ==> OuterPad(key)[i] == (if i < |key| then key[i] else 0) ^ 0x5c
  {
  }

  /** `k` without its trailing zeros. */
  function Trimmed(k: seq<bv8>): (t: seq<bv8>)
    ensures |t| <= |k|
  {
    if k != [] && k[|k| - 1] == 0 then Trimmed(k[..|k| - 1]) else k
  }

  lemma {:induction false} TrimmedPads(k: seq<bv8>)
    requires |k| <= 64
    ensures Padded(Trimmed(k)) == Padded(k)
  {
    if k != [] && k[|k| - 1] == 0 {
      TrimmedPads(k[..|k| - 1]);
      assert Padded(k[..|k| - 1]) == Padded(k);
    }
  }

  /** What a key file stores: trailing zeros of the padded key are dropped. */
  function Stored(key: seq<bv8>): (t: seq<bv8>)
    ensures |t| <= 64
  {
    Trimmed(Padded(Short(key)))
  }

  lemma StoredKeepsPads(key: seq<bv8>)
    ensures InnerPad(Stored(key)) == InnerPad(key) && OuterPad(Stored(key)) == OuterPad(key)
  {
    var p := Padded(Short(key));
    TrimmedPads(p);
    assert Padded(p) == p;
  }

  /** The dropped zeros cannot be told apart, so the stored key is the key itself
      exactly when the key does not end in a zero. */
  lemma StoredIsKeyIff(key: seq<bv8>)
    requires |key| <= 64
    ensures Stored(key) == key <==> key == [] || key[|key| - 1] != 0
  {
    TrimmedPadded(key, Padded(key));
  }

  /** A key of one zero byte comes back empty. */
  lemma ZeroKeyVanishes()
    ensures Stored([0]) == []
  {
    TrimmedPadded([0], Padded([0]));
    assert [0][..0] == [] && Trimmed([]) == [];
  }

  lemma {:induction false} TrimmedPadded(k: seq<bv8>, p: seq<bv8>)
    requires k <= p && forall i :: |k| <= i < |p| ==> p[i] == 0
    ensures Trimmed(p) == Trimmed(k)
    ensures Trimmed(k) == k <==> k == [] || k[|k| - 1] != 0
    decreases |p|
  {
    if |p| > |k| {
      assert p[|p| - 1] == 0;
      TrimmedPadded(k, p[..|p| - 1]);
    } else {
      assert p == k;
    }
  }

  /** What the key file starts with: the format's version, the algorithm and its name. */
  function Header(): (s: string)
    ensures |s| == 47
  {
    "Private-key-format: v1.2\nAlgorithm: 157 (HMAC)\n"
  }

  /** A key file, given the base 64 form of its key. */
  function KeyFile(encoded: string): string {
    Header() + "Key: " + encoded + "\n"
  }

  lemma KeyFileText(encoded: string)
    ensures KeyFile(encoded) == "Private-key-format: v1.2\nAlgorithm: 157 (HMAC)\nKey: " + encoded + "\n"
  {
  }

  /** The text up to the first newline, if there is one. */
  function Line(s: string): Option<string> {
    if s == [] then None
    else if s[0] == '\n' then Some([])
    else match Line(s[1..]) case None => None case Some(rest) => Some([s[0]] + rest)
  }

  lemma {:induction false} LineOf(s: string, rest: string)
    requires '\n' !in s
    ensures Line(s + "\n" + rest) == Some(s)
  {
    if s == [] {
      assert s + "\n" + rest == "\n" + rest;
    } else {
      var t := s + "\n" + rest;
      assert t[0] == s[0] && t[1..] == s[1..] + "\n" + rest && s == [s[0]] + s[1..];
      LineOf(s[1..], rest);
    }
  }

  /** The outcome of reading the part of a key file that follows its header: the key, or
      the error number. */
  datatype Parsed = Key(key: seq<bv8>) | Bad(code: int)

  function Parse(text: string, decode: string -> Option<seq<bv8>>): Parsed {
    if !("Key: " <= text) then Bad(-3)
    else match Line(text[5..])
      case None => Bad(-4)
      case Some(line) => match decode(line)
        case None => Bad(-6)
        case Some(key) => Key(key)
  }

  /** Without the word before the key, without a newline behind it, and with a key that is not in
      base 64. */
  lemma Defects(decode: string -> Option<seq<bv8>>)
    ensures Parse("Kex: AAAA\n", decode) == Bad(-3) && Parse("Key: AAAA", decode) == Bad(-4)
    ensures decode("AAAA") == None ==> Parse("Key: AAAA\n", decode) == Bad(-6)
    ensures decode("AAAA") == Some([0, 0, 0]) ==> Parse("Key: AAAA\n", decode) == Key([0, 0, 0])
  {
    assert "Key: "[2] == 'y' && "Kex: AAAA\n"[2] == 'x';
    assert "Key: AAAA"[5..] == "AAAA" && "Key: AAAA\n"[5..] == "AAAA" + "\n" + "";
    LineOf("AAAA", "");
    assert Line("") == None && Line("A") == None && Line("AA") == None && Line("AAA") == None;
    assert "AAAA"[1..] == "AAA" && "AAA"[1..] == "AA" && "AA"[1..] == "A" && "A"[1..] == "";
  }

  /** Writing a key to a file and reading it back gives a key with the same pads, hence
      the same signatures, for every key. */
  lemma KeyFileRoundTrip(key: seq<bv8>, encode: seq<bv8> -> string, decode: string -> Option<seq<bv8>>)
    requires forall k: seq<bv8> :: |k| <= 64 ==> decode(encode(k)) == Some(k) && '\n' !in encode(k)
    ensures var text := KeyFile(encode(Stored(key)));
      Header() <= text && Parse(text[|Header()|..], decode) == Key(Stored(key))
    ensures forall text: seq<bv8> :: Hmac(Stored(key), text) == Hmac(key, text)
  {
    hide Header, Stored, InnerPad, OuterPad, Digest;
    var e := encode(Stored(key));
    var body := KeyFile(e)[|Header()|..];
    assert body == "Key: " + e + "\n" && body[..5] == "Key: " && body[5..] == e + "\n" + "";
    LineOf(e, "");
    StoredKeepsPads(key);
  }
}

/** Keys, signing and verifying as the library does them, on MD5 contexts. */
module Hmac {
  import opened Basics
  import opened HmacSpec
  import opened Md5Spec
  import opened Md5

  class HmacKey {
    const ipad: array<bv8>
    const opad: array<bv8>

    /** Both pads filled with zeros. */
    constructor ()
      ensures fresh(ipad) && fresh(opad) && ipad != opad
      ensures ipad[..] == opad[..] == seq(64, _ => 0)
    {
      ipad := new bv8[64](_ => 0);
      opad := new bv8[64](_ => 0);
    }

    ghost predicate Holds(key: seq<bv8>)
      reads ipad, opad
    {
      ipad[..] == InnerPad(key) && opad[..] == OuterPad(key)
    }
  }

  class DstKey {
    var keySize: int
    var hmac: HmacKey?

    constructor ()
    {
      keySize, hmac := 0, null;
    }

    /** The structure was made from `key`. */
    ghost predicate Holds(key: seq<bv8>)
      reads this, if hmac == null then {} else {hmac.ipad, hmac.opad}
    {
      hmac != null ==> hmac.Holds(key) && keySize == |Short(key)|
    }
  }

  /** `memcpy` into the front of an array. */
  method CopyIn(a: array<bv8>, s: seq<bv8>)
    requires |s| <= a.Length
    modifies a
    ensures a[..] == s + old(a[..])[|s|..]
  {
    var i := 0;
    while i < |s|
      invariant 0 <= i <= |s|
      invariant forall k :: 0 <= k < i ==> a[k] == s[k]
      invariant forall k :: i <= k < a.Length ==> a[k] == old(a[k])
    {
      a[i] := s[i];
      i := i + 1;
    }
  }

  /** The constants of the two pads, worked into them. */
  method XorPads(ipad: array<bv8>, opad: array<bv8>)
    requires ipad.Length == opad.Length == 64 && ipad != opad
    modifies ipad, opad
    ensures ipad[..] == Xored(old(ipad[..]), 0x36) && opad[..] == Xored(old(opad[..]), 0x5c)
  {
    hide Xor;
    var i := 0;
    while i < 64
      invariant 0 <= i <= 64
      invariant forall k :: 0 <= k < i ==> ipad[k] == Xor(old(ipad[k]), 0x36) && opad[k] == Xor(old(opad[k]), 0x5c)
      invariant forall k :: i <= k < 64 ==> ipad[k] == old(ipad[k]) && opad[k] == old(opad[k])
    {
      ipad[i] := Xor(ipad[i], 0x36);
      opad[i] := Xor(opad[i], 0x5c);
      i := i + 1;
    }
  }

  /** The digest in one go. */
  method DigestOf(k: seq<bv8>) returns (d: seq<bv8>)
    requires |k| < 0x8000_0000
    ensures d == Digest(k)
  {
    hide Digest, Md5Ctx.Valid;
    var ctx := new Md5Ctx();
    assert [] + k == k;
    ctx.Update(k, []);
    d := ctx.Final(k);
  }

  /** Makes the pads out of a key. */
  method BufferToKey(dkey: DstKey?, key: seq<bv8>, keylen: int) returns (r: int)
    requires keylen <= |key| < 0x8000_0000
    modifies dkey
    ensures r == if dkey == null || keylen < 0 then -1 else 1
    ensures r == 1 ==> dkey.hmac != null && fresh(dkey.hmac) && fresh(dkey.hmac.ipad) && fresh(dkey.hmac.opad)
    ensures r == 1 ==> dkey.Holds(key[..keylen])
    ensures dkey != null && r != 1 ==> unchanged(dkey)
  {
    hide Digest, Xored;
    if dkey == null || keylen < 0 {
      return -1;
    }
    var hkey := new HmacKey();
    var k := key[..keylen];
    if keylen > 64 {
      k := DigestOf(k);
    }
    assert k == Short(key[..keylen]);
    CopyIn(hkey.ipad, k);
    CopyIn(hkey.opad, k);
    assert hkey.ipad[..] == hkey.opad[..] == Padded(k);
    XorPads(hkey.ipad, hkey.opad);
    dkey.keySize := |k|;
    dkey.hmac := hkey;
    r := 1;
  }

  /** Where the caller keeps the pointer to the context between calls. */
  class Context {
    var ctx: Md5Ctx?

    constructor ()
    {
      ctx := null;
    }
  }

  ghost function Footprint(context: Context?): set<object>
    reads context
  {
    if context == null || context.ctx == null then {} else {context.ctx, context.ctx.data}
  }

  ghost predicate Holds(context: Context?, s: Session, key: seq<bv8>)
    reads context, Footprint(context)
  {
    match s
    case Closed => context == null || context.ctx == null
    case Open(m) => context != null && context.ctx != null && context.ctx.Valid(InnerPad(key) + m)
    case Freed => context != null && context.ctx != null
  }

  /** The INIT and UPDATE parts. */
  method Feed(ctx0: Md5Ctx?, hmac: HmacKey, c: Call, ghost s: Session, ghost key: seq<bv8>) returns (ctx: Md5Ctx)
    requires hmac.Holds(key) && |c.data| < 0x8000_0000
      && (c.init || (ctx0 != null && s.Open? && ctx0.Valid(InnerPad(key) + s.fed)))
    modifies if c.init || ctx0 == null then {} else {ctx0, ctx0.data}
    ensures if c.init then fresh(ctx) && fresh(ctx.data) else ctx == ctx0
    ensures ctx.Valid(InnerPad(key) + Fed(s, c))
  {
    hide Md5Ctx.Valid, InnerPad, OuterPad;
    ghost var m := if c.init then [] else s.fed;
    if c.init {
      ctx := new Md5Ctx();
      assert hmac.ipad[..] == InnerPad(key) && [] + hmac.ipad[..] == InnerPad(key) + m;
      ctx.Update(hmac.ipad[..], []);
    } else {
      ctx := ctx0;
    }
    if c.update && |c.data| > 0 {
      assert InnerPad(key) + m + c.data == InnerPad(key) + (m + c.data);
      ctx.Update(c.data, InnerPad(key) + m);
    } else {
      assert m + [] == m;
    }
  }

  /** The FINAL part: the digest of the text, then the outer digest. */
  method Finish(ctx: Md5Ctx, hmac: HmacKey, ghost text: seq<bv8>, ghost key: seq<bv8>) returns (d: seq<bv8>)
    requires hmac.Holds(key) && ctx.Valid(InnerPad(key) + text)
    modifies ctx, ctx.data
    ensures d == Hmac(key, text)
  {
    hide Md5Ctx.Valid, InnerPad, OuterPad, Digest;
    var inner := ctx.Final(InnerPad(key) + text);
    ctx.Restart();
    assert [] + hmac.opad[..] == OuterPad(key);
    ctx.Update(hmac.opad[..], []);
    ctx.Update(inner, OuterPad(key));
    d := ctx.Final(OuterPad(key) + inner);
  }

  /** Signs: any of INIT, UPDATE and FINAL. */
  method Sign(dkey: DstKey?, context: Context?, c: Call, signature: array?<bv8>, sigLen: int, ghost s: Session,
              ghost key: seq<bv8>)
    returns (r: int)
    requires Holds(context, s, key) && |c.data| < 0x8000_0000 && (s.Freed? ==> c.init)
    requires dkey != null ==> dkey.Holds(key)
    requires dkey != null && dkey.hmac != null ==> {dkey.hmac.ipad, dkey.hmac.opad} !! Footprint(context)
    requires signature != null ==> sigLen <= signature.Length
    requires signature != null ==> signature !in Footprint(context)
    modifies context, Footprint(context), signature
    ensures var hasKey := dkey != null && old(dkey.hmac) != null;
      r == SignReturns(s, c, hasKey, context != null, signature != null && sigLen >= 16)
      && Holds(context, After(s, c, hasKey, context != null, r == 16), key)
    ensures signature != null ==>
      signature[..] == (if r == 16 then Hmac(key, Fed(s, c)) + old(signature[16..]) else old(signature[..]))
  {
    hide Md5Ctx.Valid, InnerPad, OuterPad, Digest, HmacSpec.Hmac;
    if dkey == null || dkey.hmac == null {
      return -1;
    }
    var ctx: Md5Ctx? := null;
    if !c.init {
      if context != null {
        ctx := context.ctx;
      }
      if ctx == null {
        return -1;
      }
    }
    var hmac := dkey.hmac;
    ctx := Feed(ctx, hmac, c, s, key);
    if c.final {
      if signature == null || sigLen < 16 {
        return -25;
      }
      var d := Finish(ctx, hmac, Fed(s, c), key);
      CopyIn(signature, d);
      return 16;
    }
    if context == null {
      return -1;
    }
    context.ctx := ctx;
    r := 0;
  }

  /** Checks a signature: any of INIT, UPDATE and FINAL. */
  method Verify(dkey: DstKey?, context: Context?, c: Call, signature: Option<seq<bv8>>, ghost s: Session,
                ghost key: seq<bv8>)
    returns (r: int)
    requires Holds(context, s, key) && |c.data| < 0x8000_0000 && (s.Freed? ==> c.init)
    requires dkey != null ==> dkey.Holds(key)
    requires dkey != null && dkey.hmac != null ==> {dkey.hmac.ipad, dkey.hmac.opad} !! Footprint(context)
    modifies context, Footprint(context)
    ensures var hasKey := dkey != null && old(dkey.hmac) != null;
      var done := signature.Some? && |signature.value| == 16;
      r == VerifyReturns(key, s, c, hasKey, context != null, signature)
      && Holds(context, After(s, c, hasKey, context != null, done), key)
  {
    hide Md5Ctx.Valid, InnerPad, OuterPad, Digest, HmacSpec.Hmac;
    if dkey == null || dkey.hmac == null {
      return -1;
    }
    var ctx: Md5Ctx? := null;
    if !c.init {
      if context != null {
        ctx := context.ctx;
      }
      if ctx == null {
        return -1;
      }
    }
    var hmac := dkey.hmac;
    ctx := Feed(ctx, hmac, c, s, key);
    if c.final {
      if signature == None || |signature.value| != 16 {
        return -28;
      }
      var d := Finish(ctx, hmac, Fed(s, c), key);
      if d != signature.value {
        return -28;
      }
    } else {
      if context == null {
        return -1;
      }
      context.ctx := ctx;
    }
    r := 0;
  }

  /** The key as it goes on the wire. */
  method ToDnsKey(dkey: DstKey?, out: array<bv8>, outLen: int, ghost key: seq<bv8>) returns (r: int)
    requires outLen <= out.Length && (dkey != null ==> dkey.Holds(key))
    requires dkey != null && dkey.hmac != null ==> out != dkey.hmac.ipad && out != dkey.hmac.opad
    modifies out
    ensures var fails := dkey == null || dkey.hmac == null || outLen <= |Short(key)|;
      && r == (if fails then -1 else |Short(key)|)
      && out[..] == (if fails then [] else Short(key)) + old(out[..])[if fails then 0 else |Short(key)|..]
  {
    hide Xor, Digest;
    if dkey == null || dkey.hmac == null || outLen <= dkey.keySize {
      return -1;
    }
    var hkey := dkey.hmac;
    XoredTwice(Padded(Short(key)), 0x36);
    var i := 0;
    while i < dkey.keySize
      invariant 0 <= i <= dkey.keySize
      invariant forall k :: 0 <= k < i ==> out[k] == Short(key)[k]
      invariant forall k :: i <= k < out.Length ==> out[k] == old(out[k])
    {
      assert Padded(Short(key))[i] == Xored(hkey.ipad[..], 0x36)[i];
      out[i] := Xor(hkey.ipad[i], 0x36);
      i := i + 1;
    }
    r := i;
  }

  /** The padded key without its trailing zeros. */
  method StoredKey(hkey: HmacKey, ghost key: seq<bv8>) returns (k: seq<bv8>)
    requires hkey.Holds(key)
    ensures k == Stored(key)
  {
    hide Xor, Digest;
    XoredTwice(Padded(Short(key)), 0x36);
    ghost var padded := Padded(Short(key));
    var buf := new bv8[64](_ => 0);
    var i := 0;
    while i < 64
      invariant 0 <= i <= 64 && forall k :: 0 <= k < i ==> buf[k] == padded[k]
    {
      assert padded[i] == Xored(hkey.ipad[..], 0x36)[i];
      buf[i] := Xor(hkey.ipad[i], 0x36);
      i := i + 1;
    }
    assert buf[..] == padded;
    i := 63;
    assert buf[..i + 1] == padded;
    while i >= 0 && buf[i] == 0
      invariant -1 <= i < 64 && Trimmed(buf[..i + 1]) == Trimmed(padded)
      decreases i
    {
      assert buf[..i + 1][..i] == buf[..i];
      i := i - 1;
    }
    k := buf[..i + 1];
  }

  /** `sprintf`, `strcat` and the base 64 encoder: text put into a buffer. */
  method PutText(buff: array<char>, at: nat, s: string)
    requires at + |s| <= buff.Length
    modifies buff
    ensures buff[..at + |s|] == old(buff[..at]) + s
  {
    var i := 0;
    while i < |s|
      invariant 0 <= i <= |s|
      invariant forall k :: 0 <= k < at ==> buff[k] == old(buff[k])
      invariant forall k :: 0 <= k < i ==> buff[at + k] == s[k]
    {
      buff[at + i] := s[i];
      i := i + 1;
    }
  }

  /** The line with the key, behind the header. */
  method PutKey(buff: array<char>, bp0: nat, buffLen: int, e: string) returns (r: int)
    requires bp0 <= buffLen <= buff.Length && buff[..bp0] == Header()
    modifies buff
    ensures var text := KeyFile(e);
      var fits := |text| < buffLen;
      && r == (if fits then |text| else -1)
      && (fits ==> buff[..r] == text && buff[r] == '\0')
  {
    hide Header;
    var bp := bp0;
    if buffLen - bp < 6 {
      return -1;
    }
    PutText(buff, bp, "Key: ");
    bp := bp + 5;
    if |e| >= buffLen - bp {
      return -1;
    }
    PutText(buff, bp, e);
    bp := bp + |e|;
    if buffLen - bp < 2 {
      return -1;
    }
    PutText(buff, bp, "\n");
    bp := bp + 1;
    buff[bp] := '\0';
    assert buff[..bp] == KeyFile(e);
    r := bp;
  }

  /** Writes the key file; the buffer also has to hold a closing NUL. */
  method ToFileFormat(dkey: DstKey?, buff: array<char>, buffLen: int, encode: seq<bv8> -> string, ghost key: seq<bv8>)
    returns (r: int)
    requires buffLen <= buff.Length && (dkey != null ==> dkey.Holds(key))
    modifies buff
    ensures var text := KeyFile(encode(Stored(key)));
      var fits := |text| < buffLen;
      && r == (if dkey == null || dkey.hmac == null then 0 else if fits then |text| else -1)
      && (r > 0 ==> buff[..r] == text && buff[r] == '\0')
  {
    hide Stored, Header, InnerPad, OuterPad;
    if dkey == null || dkey.hmac == null {
      return 0;
    }
    if buffLen <= 50 {
      return -1;
    }
    var hkey := dkey.hmac;
    var k := StoredKey(hkey, key);
    forall i | 0 <= i < buffLen {
      buff[i] := '\0';
    }
    PutText(buff, 0, Header());
    r := PutKey(buff, |Header()|, buffLen, encode(k));
  }

  /** Reads a key file behind its header; the decoder has room for 65 bytes. */
  method FromFileFormat(dkey: DstKey?, text: string, decode: string -> Option<seq<bv8>>) returns (r: int)
    requires forall s :: decode(s).Some? ==> |decode(s).value| <= 65
    modifies dkey
    ensures r == if dkey == null then -2 else if Parse(text, decode).Key? then 0 else Parse(text, decode).code
    ensures r == 0 ==> dkey.hmac != null && dkey.Holds(Parse(text, decode).key)
    ensures dkey != null && r != 0 ==> unchanged(dkey)
  {
    hide InnerPad, OuterPad, Digest;
    if dkey == null {
      return -2;
    }
    if !("Key: " <= text) {
      return -3;
    }
    var line := FirstLine(text[5..]);
    if line == None {
      return -4;
    }
    var key := decode(line.value);
    var made := BufferToKey(dkey, if key == None then [] else key.value, if key == None then -1 else |key.value|);
    if made < 0 {
      return -6;
    }
    assert key.value[..|key.value|] == key.value;
    r := 0;
  }

  /** `strchr` for the newline. */
  method FirstLine(s: string) returns (line: Option<string>)
    ensures line == Line(s)
  {
    var i := 0;
    while i < |s| && s[i] != '\n'
      invariant 0 <= i <= |s| && forall k :: 0 <= k < i ==> s[k] != '\n'
    {
      i := i + 1;
    }
    if i < |s| {
      LineOf(s[..i], s[i + 1..]);
      assert s == s[..i] + "\n" + s[i + 1..];
      return Some(s[..i]);
    }
    NoLine(s);
    line := None;
  }

  lemma {:induction false} NoLine(s: string)
    requires '\n' !in s
    ensures Line(s) == None
  {
    if s != [] {
      NoLine(s[1..]);
    }
  }
}
