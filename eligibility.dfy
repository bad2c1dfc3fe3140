/**
  The pure decisions of `Minter.check_eligibility` and `Minter.mint`
  (main.py): the eligibility verdict with its rarity tier, and the metadata
  tuple handed to the contract, whose last field is parsed as base-16 text.
  The HTTP request itself is not modelled: its response is an input.
 */
module Eligibility {
  import opened Options

  datatype Rarity = Rare | Common | Legendary

  /** A JSON member value, as far as the script looks at it. */
  datatype Value = Str(s: string) | Int(i: int) | OtherValue

  datatype Field = Field(key: string, value: Value)

  /**
    The decoded JSON body of the eligibility response. `Falsy` is any value
    Python treats as false (`{}`, `[]`, `null`, ...); `NotJson` is a body
    `response.json()` cannot decode. For an `Object`, `metadata` is `None` when
    the key is missing or does not hold an object, and `proof` is `None` when
    that key is missing.
   */
  datatype Body = NotJson | Falsy | Object(metadata: Option<seq<Field>>, proof: Option<Value>)

  /** `ok` is the truth value of the `requests` response: its HTTP status is not an error status (400 to 599). */
  datatype Response = Response(ok: bool, body: Body)

  /** What `check_eligibility` does: returns None, returns the response, or raises. */
  datatype Verdict = Ineligible | Eligible(rarity: Rarity) | Raised

  const RarePrefix: string := "0x7c"
  const CommonPrefix: string := "0x25"
  const RarityKey: string := "rarityData"

  /** Python's `str.startswith`. */
  predicate StartsWith(s: string, prefix: string)
  {
    |prefix| <= |s| && s[..|prefix|] == prefix
  }

  function Classify(rarityData: string): Rarity
  {
    if StartsWith(rarityData, RarePrefix) then Rare
    else if StartsWith(rarityData, CommonPrefix) then Common
    else Legendary
  }

  /** The rarity depends on the first four characters only. */
  lemma RarityDependsOnPrefixOnly(s: string, t: string)
    requires |s| >= 4 && |t| >= 4
    requires s[..4] == t[..4]
    ensures Classify(s) == Classify(t)
  {
  }

  /** The three tiers, in the order the prefixes are tested; everything else defaults to Legendary. */
  lemma RarityByPrefix(rest: string, s: string)
    ensures Classify(RarePrefix + rest) == Rare
    ensures Classify(CommonPrefix + rest) == Common
    ensures (|s| < 4 || (s[..4] != RarePrefix && s[..4] != CommonPrefix)) ==> Classify(s) == Legendary
  {
  }

  /**
    Dictionary lookup over fields in insertion order. The fields stand for a
    decoded dict, whose keys are distinct; on a list that repeats a key the
    first field is taken.
   */
  function Lookup(fields: seq<Field>, key: string): (r: Option<Value>)
    ensures r.None? <==> forall i :: 0 <= i < |fields| ==> fields[i].key != key
    ensures r.Some? ==> exists i :: 0 <= i < |fields| && fields[i] == Field(key, r.value)
                                  && forall j :: 0 <= j < i ==> fields[j].key != key
  {
    if fields == [] then None
    else if fields[0].key == key then Some(fields[0].value)
    else Lookup(fields[1..], key)
  }

  /**
    `check_eligibility` after the HTTP call: a falsy body is ineligible; the
    rarity comes from the `rarityData` string of the metadata; a body that is
    not JSON, lacks that string, or holds something else there raises
    (KeyError, TypeError or AttributeError in the source).
   */
  function CheckEligibility(body: Body): (v: Verdict)
    ensures v.Ineligible? <==> body.Falsy?
    ensures v.Eligible? <==> body.Object? && body.metadata.Some?
                             && Lookup(body.metadata.value, RarityKey).Some?
                             && Lookup(body.metadata.value, RarityKey).value.Str?
    ensures v.Eligible? ==> v.rarity == Classify(Lookup(body.metadata.value, RarityKey).value.s)
  {
    match body
    case NotJson => Raised
    case Falsy => Ineligible
    case Object(metadata, _) =>
      if metadata.None? then Raised
      else match Lookup(metadata.value, RarityKey)
        case Some(Str(s)) => Eligible(Classify(s))
        case _ => Raised
  }

  /** `metadata.values()`, in order. */
  function Values(fields: seq<Field>): seq<Value>
  {
    seq(|fields|, i requires 0 <= i < |fields| => fields[i].value)
  }

  // ---------------------------------------------------------------------------
  // Base-16 text, as read by `int(text, 16)`

  predicate IsHexDigit(c: char)
  {
    ('0' <= c <= '9') || ('a' <= c <= 'f') || ('A' <= c <= 'F')
  }

  predicate AllHexDigits(ds: string)
  {
    forall i :: 0 <= i < |ds| ==> IsHexDigit(ds[i])
  }

  function HexDigitValue(c: char): (v: nat)
    requires IsHexDigit(c)
    ensures v < 16
  {
    if '0' <= c <= '9' then c as int - '0' as int
    else if 'a' <= c <= 'f' then c as int - 'a' as int + 10
    else c as int - 'A' as int + 10
  }

  /** The value of a string of hex digits, most significant first. */
  function DigitsValue(ds: string): nat
    requires AllHexDigits(ds)
  {
    if ds == [] then 0
    else DigitsValue(ds[..|ds| - 1]) * 16 + HexDigitValue(ds[|ds| - 1])
  }

  predicate HasHexPrefix(s: string)
  {
    |s| >= 2 && s[0] == '0' && (s[1] == 'x' || s[1] == 'X')
  }

  /** `int(s, 16)`: an optional `0x`/`0X` prefix, then at least one hex digit; `None` where Python raises ValueError. */
  function ParseHex(s: string): Option<nat>
  {
    var ds := if HasHexPrefix(s) then s[2..] else s;
    if |ds| > 0 && AllHexDigits(ds) then Some(DigitsValue(ds)) else None
  }

  function DigitChar(d: nat): (c: char)
    requires d < 16
    ensures IsHexDigit(c) && HexDigitValue(c) == d
  {
    if d < 10 then ('0' as int + d) as char else ('a' as int + d - 10) as char
  }

  /** Lower-case hex digits of `n`, no leading zeros. */
  function ToHexDigits(n: nat): (ds: string)
    ensures |ds| >= 1 && AllHexDigits(ds)
  {
    if n < 16 then [DigitChar(n)] else ToHexDigits(n / 16) + [DigitChar(n % 16)]
  }

  /** The text `hex(n)` gives in Python. */
  function ToHex(n: nat): string
  {
    "0x" + ToHexDigits(n)
  }

  lemma {:induction false} DigitsRoundTrip(n: nat)
    ensures DigitsValue(ToHexDigits(n)) == n
  {
    if n >= 16 {
      DigitsRoundTrip(n / 16);
      var ds := ToHexDigits(n);
      assert ds[..|ds| - 1] == ToHexDigits(n / 16);
    }
  }

  /** Parsing the hex text of a number gives the number back. */
  lemma HexRoundTrip(n: nat)
    ensures ParseHex(ToHex(n)) == Some(n)
  {
    DigitsRoundTrip(n);
    assert ToHex(n)[2..] == ToHexDigits(n);
  }

  /** `int(ds, 16)` and `int("0x" + ds, 16)` agree; the empty text and a bare prefix are rejected. */
  lemma ParseHexPrefixOptional(ds: string)
    requires |ds| > 0 && AllHexDigits(ds)
    ensures ParseHex(ds) == ParseHex("0x" + ds) == Some(DigitsValue(ds))
    ensures ParseHex("") == ParseHex("0x") == None
  {
  }

  // ---------------------------------------------------------------------------
  // The metadata tuple of `mint`

  /**
    `meta[:-1] + (int(meta[-1], 16),)`: every field but the last is kept; the
    last must be hex text and becomes its integer value. `None` where Python
    raises (an empty tuple, a last field that is not text or not hex).
   */
  function Reshape(meta: seq<Value>): (r: Option<seq<Value>>)
    ensures r.Some? <==> |meta| > 0 && meta[|meta| - 1].Str? && ParseHex(meta[|meta| - 1].s).Some?
    ensures r.Some? ==> |r.value| == |meta|
    ensures r.Some? ==> forall i :: 0 <= i < |meta| - 1 ==> r.value[i] == meta[i]
    ensures r.Some? ==> r.value[|meta| - 1] == Int(ParseHex(meta[|meta| - 1].s).value)
  {
    if |meta| == 0 then None
    else match meta[|meta| - 1]
      case Str(text) =>
        (match ParseHex(text)
         case Some(n) => Some(meta[..|meta| - 1] + [Int(n)])
         case None => None)
      case _ => None
  }

  /**
    The tuple `mint` passes on, built from the metadata fields: it exists
    exactly when there is a last field holding hex text; then it has one
    entry per field, the values of all but the last field in order, and the
    integer value of the last field's text.
   */
  lemma ReshapeMetadata(fields: seq<Field>)
    ensures var r := Reshape(Values(fields));
      (r.Some? <==> |fields| > 0 && fields[|fields| - 1].value.Str?
                    && ParseHex(fields[|fields| - 1].value.s).Some?)
      && (r.Some? ==>
            |r.value| == |fields|
            && (forall i :: 0 <= i < |fields| - 1 ==> r.value[i] == fields[i].value)
            && r.value[|fields| - 1] == Int(ParseHex(fields[|fields| - 1].value.s).value))
  {
  }

  /** A tuple whose last field is the hex text of `n` reshapes to the same tuple ending in `n`. */
  lemma ReshapeRoundTrip(init: seq<Value>, n: nat)
    ensures Reshape(init + [Str(ToHex(n))]) == Some(init + [Int(n)])
  {
    HexRoundTrip(n);
    var meta := init + [Str(ToHex(n))];
    assert meta[..|meta| - 1] == init;
  }
}
