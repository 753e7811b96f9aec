/** cbs_convert_indefinite of bs_ber.c: rewriting BER with indefinite lengths (X.690 section
    8.1.3.6) into definite, minimal lengths. */
module BerConvert {
  import opened Encoding
  import opened ByteParser

  const MAX_DEPTH: nat := 2048

  /** is_primitive_type: a universal type other than SEQUENCE and SET. */
  predicate IsPrimitiveType(tag: byte) {
    tag / 64 == 0 && tag % 32 != 16 && tag % 32 != 17
  }

  predicate ContextSpecific(tag: byte) {
    tag / 64 == 2
  }

  function ClearConstructed(tag: byte): (r: byte)
    ensures !Constructed(r) && (tag % 32 != 31 ==> r % 32 != 31)
  {
    if Constructed(tag) then tag - 32 else tag
  }

  predicate IsEoc(f: Found) {
    f.headerLen == 2 && f.element == [0, 0]
  }

  predicate IsIndefinite(f: Found) {
    |f.element| == f.headerLen && f.headerLen > 0 && f.element[f.headerLen - 1] == 0x80
  }

  /** Whether the elements inside an indefinite element are fragments of one string: for the
      primitive universal types, and for a context-specific tag around a definite primitive. */
  function SquashChildren(f: Found): (r: Option<bool>) {
    if ContextSpecific(f.tag) && Constructed(f.tag) then
      match GetElement(f.rest, false)
      case None => None
      case Some(inner) =>
        Some(IsPrimitiveType(f.tag) || (|inner.element| > inner.headerLen && IsPrimitiveType(inner.tag)))
    else Some(IsPrimitiveType(f.tag))
  }

  /** The output for one element: its contents alone when headers are squashed. */
  function Emit(squash: bool, tag: byte, c: seq<byte>): (r: Option<seq<byte>>) {
    if squash then Some(c)
    else if |c| > 0xffff_fffe || tag % 32 == 31 then None
    else Some([tag] + DerLength(|c|) + c)
  }

  /** What has been written, and what is left of the input. */
  datatype Done = Done(out: seq<byte>, rest: seq<byte>)

  function Prepend(piece: seq<byte>, r: Option<Done>): (r': Option<Done>) {
    match r
    case None => None
    case Some(d) => Some(Done(piece + d.out, d.rest))
  }

  function Convert(s: seq<byte>, squash: bool, lookingForEoc: bool, depth: nat): (r: Option<Done>)
    ensures r.Some? ==> |r.value.rest| <= |s|
    ensures r.Some? && !lookingForEoc ==> r.value.rest == []
    decreases |s|
  {
    if depth > MAX_DEPTH then None
    else if s == [] then (if lookingForEoc then None else Some(Done([], [])))
    else
      match GetElement(s, false)
      case None => None
      case Some(f) =>
        if IsEoc(f) then (if lookingForEoc then Some(Done([], f.rest)) else None)
        else if IsIndefinite(f) then
          match SquashChildren(f)
          case None => None
          case Some(q) =>
            match Convert(f.rest, q, true, depth + 1)
            case None => None
            case Some(inner) =>
              match Emit(squash, if q then ClearConstructed(f.tag) else f.tag, inner.out)
              case None => None
              case Some(piece) => Prepend(piece, Convert(inner.rest, squash, lookingForEoc, depth))
        else
          match Body(f, depth)
          case None => None
          case Some(c) =>
            match Emit(squash, f.tag, c)
            case None => None
            case Some(piece) => Prepend(piece, Convert(f.rest, squash, lookingForEoc, depth))
  }

  /** The converted contents of a definite element. */
  function Body(f: Found, depth: nat): (r: Option<seq<byte>>)
    requires 2 <= f.headerLen <= |f.element|
    decreases |f.element| - f.headerLen + 1
  {
    if !Constructed(f.tag) then Some(f.Contents()) else
      match Convert(f.Contents(), false, false, depth + 1)
      case None => None
      case Some(d) => Some(d.out)
  }

  /** No element grows to more than three times its input. */
  lemma {:induction false} OutputBound(s: seq<byte>, squash: bool, lookingForEoc: bool, depth: nat)
    requires Convert(s, squash, lookingForEoc, depth).Some?
    ensures var d := Convert(s, squash, lookingForEoc, depth).value;
            |d.out| <= 3 * (|s| - |d.rest|)
    decreases |s|
  {
    if s != [] && !IsEoc(GetElement(s, false).value) {
      var f := GetElement(s, false).value;
      if IsIndefinite(f) {
        var q := SquashChildren(f).value;
        OutputBound(f.rest, q, true, depth + 1);
        OutputBound(Convert(f.rest, q, true, depth + 1).value.rest, squash, lookingForEoc, depth);
      } else {
        BodyBound(f, depth);
        OutputBound(f.rest, squash, lookingForEoc, depth);
      }
    }
  }

  lemma {:induction false} BodyBound(f: Found, depth: nat)
    requires 2 <= f.headerLen <= |f.element| && Body(f, depth).Some?
    ensures |Body(f, depth).value| <= 3 * |f.Contents()|
    decreases |f.element| - f.headerLen + 1
  {
    if Constructed(f.tag) {
      OutputBound(f.Contents(), false, false, depth + 1);
    }
  }

  // --------------------------------------------------------------------------
  // The output is definite and minimal all the way down
  // --------------------------------------------------------------------------

  /** The strict parser walks the bytes completely, and the contents of every constructed element. */
  predicate Walks(s: seq<byte>)
    decreases |s|
  {
    s == [] ||
    match GetElement(s, true)
    case None => false
    case Some(f) => (Constructed(f.tag) ==> Walks(f.Contents())) && Walks(f.rest)
  }

  lemma WalksElement(tag: byte, c: seq<byte>, more: seq<byte>)
    requires tag % 32 != 31 && |c| < 0x1_0000_0000 && (Constructed(tag) ==> Walks(c)) && Walks(more)
    ensures Walks([tag] + DerLength(|c|) + c + more)
  {
    ElementAccepted(tag, c, more, true);
    assert ([tag] + DerLength(|c|) + c)[2 + LongOctets(|c|)..] == c;
  }

  /** Whatever the input, a successful conversion leaves only definite minimal lengths. */
  lemma {:induction false} OutputWalks(s: seq<byte>, lookingForEoc: bool, depth: nat)
    requires Convert(s, false, lookingForEoc, depth).Some?
    ensures Walks(Convert(s, false, lookingForEoc, depth).value.out)
    decreases |s|
  {
    if s != [] && !IsEoc(GetElement(s, false).value) {
      var f := GetElement(s, false).value;
      if IsIndefinite(f) {
        var q := SquashChildren(f).value;
        var inner := Convert(f.rest, q, true, depth + 1).value;
        if !q {
          OutputWalks(f.rest, true, depth + 1);
        }
        OutputWalks(inner.rest, lookingForEoc, depth);
        WalksElement(if q then ClearConstructed(f.tag) else f.tag, inner.out,
                     Convert(inner.rest, false, lookingForEoc, depth).value.out);
      } else {
        if Constructed(f.tag) {
          OutputWalks(f.Contents(), false, depth + 1);
        }
        OutputWalks(f.rest, lookingForEoc, depth);
        WalksElement(f.tag, Body(f, depth).value, Convert(f.rest, false, lookingForEoc, depth).value.out);
      }
    }
  }

  /** Definite input: every level is strict DER, no end-of-contents element, nested no deeper than
      the limit, and no contents of the one length that the builder reserves. */
  predicate Plain(s: seq<byte>, depth: nat)
    decreases |s|
  {
    depth <= MAX_DEPTH &&
    (s == [] ||
     match GetElement(s, true)
     case None => false
     case Some(f) =>
       && !IsEoc(f) && |f.Contents()| <= 0xffff_fffe
       && (Constructed(f.tag) ==> Plain(f.Contents(), depth + 1))
       && Plain(f.rest, depth))
  }

  lemma StrictIsLoose(s: seq<byte>)
    requires GetElement(s, true).Some?
    ensures GetElement(s, false) == GetElement(s, true) && !IsIndefinite(GetElement(s, true).value)
  {
    ElementCanonical(s);
    var f := GetElement(s, true).value;
    if |f.element| == f.headerLen {
      assert f.element[1] == 0;
    }
  }

  /** On definite input the conversion is the identity. */
  lemma {:induction false} DefiniteUnchanged(s: seq<byte>, depth: nat)
    requires Plain(s, depth)
    ensures Convert(s, false, false, depth) == Some(Done(s, []))
    decreases |s|
  {
    if s != [] {
      StrictIsLoose(s);
      ElementCanonical(s);
      var f := GetElement(s, true).value;
      if Constructed(f.tag) {
        DefiniteUnchanged(f.Contents(), depth + 1);
      }
      DefiniteUnchanged(f.rest, depth);
    }
  }
}
