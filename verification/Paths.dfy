/** Request paths: percent coding, path components and `sanitize_path` (src/fs/path.rs, Unix build). */
module Paths {
  import opened Wrappers
  import opened Bytes

  function HexValue(b: byte): Option<nat> {
    if 0x30 <= b <= 0x39 then Some(b - 0x30)
    else if 0x41 <= b <= 0x46 then Some(b - 0x41 + 10)
    else if 0x61 <= b <= 0x66 then Some(b - 0x61 + 10)
    else None
  }

  function HexDigit(n: nat): (b: byte)
    requires n < 16
    ensures HexValue(b) == Some(n)
  {
    if n < 10 then 0x30 + n else 0x41 + (n - 10)
  }

  /** `percent_decode`: an escape that is not two hex digits stays as it is. */
  function Decode(s: seq<byte>): seq<byte> {
    if s == [] then []
    else if s[0] == PERCENT && |s| >= 3 && HexValue(s[1]).Some? && HexValue(s[2]).Some? then
      [(16 * HexValue(s[1]).value + HexValue(s[2]).value) as byte] + Decode(s[3..])
    else [s[0]] + Decode(s[1..])
  }

  predicate Unreserved(b: byte) {
    || 0x30 <= b <= 0x39 || 0x41 <= b <= 0x5A || 0x61 <= b <= 0x7A
    || b == 0x5F || b == 0x2D || b == DOT || b == 0x7E
  }

  function EncodeByte(b: byte): seq<byte> {
    if Unreserved(b) then [b] else [PERCENT, HexDigit(b / 16), HexDigit(b % 16)]
  }

  /** `percent_encode` with the listing's set (src/directory_listing/dir.rs:26-30). */
  function Encode(s: seq<byte>): seq<byte> {
    if s == [] then [] else EncodeByte(s[0]) + Encode(s[1..])
  }

  lemma {:induction false} DecodeEncode(s: seq<byte>)
    ensures Decode(Encode(s)) == s
    ensures forall b <- Encode(s) :: Unreserved(b) || b == PERCENT
  {
    if s != [] {
      DecodeEncode(s[1..]);
      var head, tail := EncodeByte(s[0]), Encode(s[1..]);
      assert (head + tail)[|head|..] == tail;
    }
  }

  /** No escape reaches over a slash. */
  lemma {:induction false} DecodeAtSlash(a: seq<byte>, b: seq<byte>)
    ensures Decode(a + [SLASH] + b) == Decode(a) + [SLASH] + Decode(b)
  {
    var s := a + [SLASH] + b;
    if a == [] {
      assert s[1..] == b;
    } else if a[0] == PERCENT && |a| >= 3 && HexValue(a[1]).Some? && HexValue(a[2]).Some? {
      assert s[0] == a[0] && s[1] == a[1] && s[2] == a[2];
      assert s[3..] == a[3..] + [SLASH] + b;
      DecodeAtSlash(a[3..], b);
    } else {
      assert s[0] == a[0] && s[1..] == a[1..] + [SLASH] + b;
      assert |a| >= 2 ==> s[1] == a[1];
      assert |a| >= 3 ==> s[2] == a[2];
      DecodeAtSlash(a[1..], b);
    }
  }

  // ----- Components -----

  type Name = seq<byte>

  const CUR_DIR: Name := [DOT]
  const PARENT_DIR: Name := [DOT, DOT]

  datatype Component = RootDir | CurDir | ParentDir | Normal(name: Name)

  /** A name a directory entry can have: `sanitize_path` lets exactly these through. */
  predicate PlainName(n: Name) {
    n != [] && SLASH !in n && n != CUR_DIR && n != PARENT_DIR
  }

  /** `Path::components` on Unix. */
  function Components(path: seq<byte>): seq<Component> {
    var parts := Split(path, SLASH);
    (if path != [] && path[0] == SLASH then [RootDir] else if parts[0] == CUR_DIR then [CurDir] else [])
    + InnerComponents(parts)
  }

  function InnerComponents(parts: seq<seq<byte>>): seq<Component> {
    if parts == [] then []
    else (if parts[0] == [] || parts[0] == CUR_DIR then []
          else if parts[0] == PARENT_DIR then [ParentDir]
          else [Normal(parts[0])]) + InnerComponents(parts[1..])
  }

  /** The names of a path, in order. */
  function Names(path: seq<byte>): seq<Name> {
    PlainParts(Split(path, SLASH))
  }

  function PlainParts(parts: seq<seq<byte>>): (names: seq<Name>)
    ensures forall n <- names :: n in parts && n != [] && n != CUR_DIR && n != PARENT_DIR
  {
    if parts == [] then []
    else (if parts[0] == [] || parts[0] == CUR_DIR || parts[0] == PARENT_DIR then [] else [parts[0]]) + PlainParts(parts[1..])
  }

  function NormalNames(cs: seq<Component>): seq<Name> {
    if cs == [] then []
    else (if cs[0].Normal? then [cs[0].name] else []) + NormalNames(cs[1..])
  }

  lemma {:induction false} NormalNamesAppend(a: seq<Component>, b: seq<Component>)
    ensures NormalNames(a + b) == NormalNames(a) + NormalNames(b)
  {
    if a == [] {
      assert a + b == b;
    } else {
      assert (a + b)[1..] == a[1..] + b;
      NormalNamesAppend(a[1..], b);
    }
  }

  lemma {:induction false} InnerNames(parts: seq<seq<byte>>)
    ensures NormalNames(InnerComponents(parts)) == PlainParts(parts)
  {
    if parts != [] {
      InnerNames(parts[1..]);
      var rest := InnerComponents(parts[1..]);
      var head := InnerComponents(parts)[..|InnerComponents(parts)| - |rest|];
      assert InnerComponents(parts) == head + rest;
      NormalNamesAppend(head, rest);
      assert head == [] || NormalNames(head) == (if head[0].Normal? then [head[0].name] else []) + NormalNames([]);
    }
  }

  lemma ComponentNames(path: seq<byte>)
    ensures NormalNames(Components(path)) == Names(path)
  {
    var parts := Split(path, SLASH);
    var lead := Components(path)[..|Components(path)| - |InnerComponents(parts)|];
    assert Components(path) == lead + InnerComponents(parts);
    NormalNamesAppend(lead, InnerComponents(parts));
    InnerNames(parts);
  }

  /** A plain name is a single normal component, so the code's second check of each component never fails. */
  lemma PlainNameIsNormal(n: Name)
    requires PlainName(n)
    ensures Components(n) == [Normal(n)] && Names(n) == [n]
  {
    SplitUnseparated(n, SLASH);
    assert InnerComponents([n]) == [Normal(n)] + InnerComponents([]);
    assert PlainParts([n]) == [n] + PlainParts([]);
  }

  lemma NamesArePlain(path: seq<byte>)
    ensures forall n <- Names(path) :: PlainName(n)
  {
    JoinSplit(path, SLASH);
  }

  lemma {:induction false} PlainPartsAppend(a: seq<seq<byte>>, b: seq<seq<byte>>)
    ensures PlainParts(a + b) == PlainParts(a) + PlainParts(b)
  {
    if a == [] {
      assert a + b == b;
    } else {
      assert (a + b)[1..] == a[1..] + b;
      PlainPartsAppend(a[1..], b);
    }
  }

  // ----- sanitize_path -----

  /** The names a request path leads through, below the root. */
  function Route(tail: seq<byte>): seq<Name> {
    Names(Decode(tail))
  }

  function TrimSlashes(s: seq<byte>): seq<byte> {
    if s != [] && s[0] == SLASH then TrimSlashes(s[1..]) else s
  }

  lemma RouteAtSlash(a: seq<byte>, b: seq<byte>)
    ensures Route(a + [SLASH] + b) == Route(a) + Route(b)
  {
    DecodeAtSlash(a, b);
    SplitAtSeparator(Decode(a), SLASH, Decode(b));
    PlainPartsAppend(Split(Decode(a), SLASH), Split(Decode(b), SLASH));
  }

  lemma {:induction false} RouteTrimmed(s: seq<byte>)
    ensures Route(TrimSlashes(s)) == Route(s)
  {
    if s != [] && s[0] == SLASH {
      RouteTrimmed(s[1..]);
      assert s == [] + [SLASH] + s[1..];
      RouteAtSlash([], s[1..]);
    }
  }

  lemma RouteEncoded(n: Name)
    requires PlainName(n)
    ensures Route(Encode(n)) == [n]
  {
    DecodeEncode(n);
    PlainNameIsNormal(n);
  }

  predicate AllNormal(cs: seq<Component>) {
    forall c <- cs :: c.Normal?
  }

  lemma NormalNamesOne(c: Component)
    ensures NormalNames([c]) == if c.Normal? then [c.name] else []
  {
    assert NormalNames([c]) == (if c.Normal? then [c.name] else []) + NormalNames([]);
  }

  lemma NormalNamesStep(cs: seq<Component>, k: nat)
    requires k < |cs|
    ensures NormalNames(cs[..k + 1]) == NormalNames(cs[..k]) + if cs[k].Normal? then [cs[k].name] else []
    ensures cs[k].Normal? ==> cs[k].name in NormalNames(cs)
  {
    hide NormalNames;
    assert cs[..k + 1] == cs[..k] + [cs[k]];
    NormalNamesAppend(cs[..k], [cs[k]]);
    NormalNamesOne(cs[k]);
    assert cs == cs[..k + 1] + cs[k + 1..];
    NormalNamesAppend(cs[..k + 1], cs[k + 1..]);
  }

  lemma NormalComponentsArePlain(path: seq<byte>, k: nat)
    requires k < |Components(path)| && Components(path)[k].Normal?
    ensures PlainName(Components(path)[k].name) && AllNormal(Components(Components(path)[k].name))
  {
    NormalNamesStep(Components(path), k);
    ComponentNames(path);
    NamesArePlain(path);
    PlainNameIsNormal(Components(path)[k].name);
  }

  /** The result never leaves the base: it is the base followed by plain names only. */
  method SanitizePath(base: seq<Name>, tail: seq<byte>) returns (full: seq<Name>)
    ensures full == base + Route(tail)
    ensures forall i | |base| <= i < |full| :: PlainName(full[i])
  {
    var decoded := Decode(TrimSlashes(tail));
    var components := Components(decoded);
    full := base;
    for k := 0 to |components|
      invariant full == base + NormalNames(components[..k])
    {
      NormalNamesStep(components, k);
      match components[k]
      case Normal(name) =>
        NormalComponentsArePlain(decoded, k);
        if AllNormal(Components(name)) {
          full := full + [name];
        }
      case CurDir =>
      case RootDir =>
      case ParentDir =>
    }
    assert components[..|components|] == components;
    RouteTrimmed(tail);
    ComponentNames(decoded);
    NamesArePlain(decoded);
  }

  /** The request path whose segments are the given names, each percent-encoded. */
  function EncodedPath(names: seq<Name>): seq<byte> {
    if names == [] then [] else [SLASH] + Encode(names[0]) + EncodedPath(names[1..])
  }

  lemma RouteOfNothing()
    ensures Route([]) == []
  {
    var nothing: seq<byte> := Decode([]);
    assert Split(nothing, SLASH) == [[]];
    assert PlainParts([[]]) == [] + PlainParts([]);
  }

  lemma RouteAfterSlash(s: seq<byte>)
    ensures Route([SLASH] + s) == Route(s)
  {
    RouteAtSlash([], s);
    assert [] + [SLASH] + s == [SLASH] + s;
    RouteOfNothing();
  }

  lemma RouteOfSegment(n: Name, rest: seq<byte>)
    requires PlainName(n) && (rest == [] || rest[0] == SLASH)
    ensures Route([SLASH] + Encode(n) + rest) == [n] + Route(rest)
  {
    hide Route, Encode;
    RouteEncoded(n);
    RouteAfterSlash(Encode(n) + rest);
    assert [SLASH] + Encode(n) + rest == [SLASH] + (Encode(n) + rest);
    if rest == [] {
      assert Encode(n) + rest == Encode(n);
      RouteOfNothing();
    } else {
      assert Encode(n) + rest == Encode(n) + [SLASH] + rest[1..];
      RouteAtSlash(Encode(n), rest[1..]);
      RouteAfterSlash(rest[1..]);
      assert [SLASH] + rest[1..] == rest;
    }
  }

  /** Every file below the root is reachable, whatever bytes its names hold. */
  lemma {:induction false} EveryPathIsReachable(names: seq<Name>)
    requires forall n <- names :: PlainName(n)
    ensures Route(EncodedPath(names)) == names
  {
    if names == [] {
      RouteOfNothing();
    } else {
      EveryPathIsReachable(names[1..]);
      RouteOfSegment(names[0], EncodedPath(names[1..]));
    }
  }

  // ----- Percent coding, byte by byte (RFC 3986, section 2.1) -----

  predicate Alphanumeric(b: byte) {
    var c := b as char;
    '0' <= c <= '9' || 'A' <= c <= 'Z' || 'a' <= c <= 'z'
  }

  /** The value of a hexadecimal digit in either case. */
  predicate HexDigitOf(b: byte, n: nat)
    requires n < 16
  {
    b as char == "0123456789ABCDEF"[n] || b as char == "0123456789abcdef"[n]
  }

  lemma HexValueIff(b: byte, n: nat)
    requires n < 16
    ensures HexValue(b) == Some(n) <==> HexDigitOf(b, n)
  {
  }

  /** A byte is kept exactly if it is a letter, a digit or one of `_-.~`; else it becomes an escape in upper case. */
  lemma EncodeByteIs(b: byte)
    ensures EncodeByte(b) == [b] <==> Alphanumeric(b) || b as char in {'_', '-', '.', '~'}
    ensures EncodeByte(b) != [b] ==>
              && |EncodeByte(b)| == 3 && EncodeByte(b)[0] == 0x25
              && EncodeByte(b)[1] as char == "0123456789ABCDEF"[b / 16] && EncodeByte(b)[2] as char == "0123456789ABCDEF"[b % 16]
  {
  }

  /** An escape with digits in either case is one byte. */
  lemma EscapeIsByte(hi: byte, lo: byte, h: nat, l: nat, rest: seq<byte>)
    requires h < 16 && l < 16 && HexDigitOf(hi, h) && HexDigitOf(lo, l)
    ensures Decode([0x25, hi, lo] + rest) == [16 * h + l] + Decode(rest)
  {
    HexValueIff(hi, h);
    HexValueIff(lo, l);
    assert ([0x25, hi, lo] + rest)[3..] == rest;
  }

  predicate IsHexDigit(b: byte) {
    exists n: nat | n < 16 :: HexDigitOf(b, n)
  }

  lemma HexDigitIff(b: byte)
    ensures IsHexDigit(b) <==> HexValue(b).Some?
  {
    if HexValue(b).Some? {
      HexValueIff(b, HexValue(b).value);
    } else {
      forall n: nat | n < 16
        ensures !HexDigitOf(b, n)
      {
        HexValueIff(b, n);
      }
    }
  }

  /** A percent sign without two hexadecimal digits behind it stands for itself. */
  lemma StrayPercentStays(rest: seq<byte>)
    requires |rest| < 2 || !IsHexDigit(rest[0]) || !IsHexDigit(rest[1])
    ensures Decode([0x25] + rest) == [0x25] + Decode(rest)
  {
    hide IsHexDigit, HexValue;
    if |rest| >= 2 {
      HexDigitIff(rest[0]);
      HexDigitIff(rest[1]);
    }
    assert ([0x25] + rest)[1..] == rest;
  }

  /** Text without a percent sign, a plus sign included, stands for itself. */
  lemma {:induction false} UnescapedStays(s: seq<byte>)
    requires 0x25 !in s
    ensures Decode(s) == s
  {
    if s != [] {
      UnescapedStays(s[1..]);
      assert s == [s[0]] + s[1..];
    }
  }

  lemma DecodeOne(b: byte, rest: seq<byte>)
    ensures Decode(EncodeByte(b) + rest) == [b] + Decode(rest)
  {
    var head := EncodeByte(b);
    assert (head + rest)[|head|..] == rest;
  }

  lemma {:induction false} DecodeEncodedBefore(a: seq<byte>, rest: seq<byte>)
    ensures Decode(Encode(a) + rest) == a + Decode(rest)
  {
    if a == [] {
      assert Encode(a) + rest == rest;
    } else {
      assert Encode(a) == EncodeByte(a[0]) + Encode(a[1..]);
      assert a == [a[0]] + a[1..];
      hide *;
      DecodeEncodedBefore(a[1..], rest);
      DecodeOne(a[0], Encode(a[1..]) + rest);
      Assoc(EncodeByte(a[0]), Encode(a[1..]), rest);
      Assoc([a[0]], a[1..], Decode(rest));
    }
  }

  lemma NamesAtSlash(a: Name, b: Name)
    requires PlainName(a) && PlainName(b)
    ensures Names(a + [SLASH] + b) == [a, b]
  {
    SplitAtSeparator(a, SLASH, b);
    PlainPartsAppend(Split(a, SLASH), Split(b, SLASH));
    PlainNameIsNormal(a);
    PlainNameIsNormal(b);
  }

  /** An escaped slash separates names too: decoding comes first. */
  lemma EscapedSlashSeparates(a: Name, b: Name)
    requires PlainName(a) && PlainName(b)
    ensures Route(Encode(a) + [0x25, 0x32, 0x46] + Encode(b)) == [a, b]
  {
    hide Decode, Names, Encode;
    var slash: seq<byte> := [0x25, 0x32, 0x46];
    DecodeEncodedBefore(a, slash + Encode(b));
    EscapeIsByte(0x32, 0x46, 2, 15, Encode(b));
    DecodeEncode(b);
    assert Encode(a) + slash + Encode(b) == Encode(a) + (slash + Encode(b));
    assert a + ([SLASH] + b) == a + [SLASH] + b;
    NamesAtSlash(a, b);
  }

  /** And escaped dots are dot segments, which name nothing. */
  lemma EscapedDotsVanish()
    ensures Route([0x25, 0x32, 0x65, 0x25, 0x32, 0x45]) == [] && Route([0x25, 0x32, 0x65]) == []
  {
    var lower, upper: seq<byte> := [0x25, 0x32, 0x65], [0x25, 0x32, 0x45];
    assert Decode([]) == [];
    EscapeIsByte(0x32, 0x45, 2, 14, []);
    EscapeIsByte(0x32, 0x65, 2, 14, upper);
    EscapeIsByte(0x32, 0x65, 2, 14, []);
    hide Decode;
    assert lower + upper == [0x25, 0x32, 0x65, 0x25, 0x32, 0x45] && upper + [] == upper && lower + [] == lower;
    SplitUnseparated(PARENT_DIR, SLASH);
    SplitUnseparated(CUR_DIR, SLASH);
    assert PlainParts([PARENT_DIR]) == [] + PlainParts([]);
    assert PlainParts([CUR_DIR]) == [] + PlainParts([]);
  }
}
