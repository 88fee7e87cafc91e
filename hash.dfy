/** `toStringHash` (src/utils.ts): turn a header or query-string hash whose values are
    strings, numbers or missing into a hash of non-empty strings. */
module Hash {
  import opened Wrappers
  import Decimal

  /** A value a caller may put in a `LegalHttpHash`: a string or a number. */
  datatype Scalar = Text(s: string) | Number(n: int)

  /** A hash as callers pass it; a `None` value was `null` or `undefined`. */
  type LegalHash = map<string, Option<Scalar>>

  /** A hash of strings (`IHash<string>`). */
  type StringHash = map<string, string>

  /** `(value ?? '').toString()`: a missing value becomes the empty string,
      a string stays itself and a number is written in decimal. */
  function Stringify(v: Option<Scalar>): (s: string)
    ensures v.Some? && v.value.Number? ==> s == Decimal.IntToText(v.value.n) && s != ""
  {
    match v
    case None => ""
    case Some(Text(s)) => s
    case Some(Number(n)) => Decimal.IntToText(n)
  }

  /** Stringify every value, then keep exactly the entries whose string is non-empty. */
  function ToStringHash(h: LegalHash): (r: StringHash)
    ensures r.Keys <= h.Keys
    ensures forall k :: k in r ==> r[k] == Stringify(h[k]) && r[k] != ""
    ensures forall k :: k in h && Stringify(h[k]) != "" ==> k in r
  {
    map k | k in h && Stringify(h[k]) != "" :: Stringify(h[k])
  }

  /** A hash of strings seen again as a caller's hash. */
  function Lift(m: StringHash): (h: LegalHash)
    ensures h.Keys == m.Keys
    ensures forall k :: k in m ==> h[k] == Some(Text(m[k]))
  {
    map k | k in m :: Some(Text(m[k]))
  }

  /** A null or undefined value is dropped. */
  lemma MissingDropped(h: LegalHash, k: string)
    requires k in h && h[k].None?
    ensures k !in ToStringHash(h)
  {
  }

  /** A number is never dropped: its decimal text is never empty. */
  lemma NumberKept(h: LegalHash, k: string)
    requires k in h && h[k].Some? && h[k].value.Number?
    ensures k in ToStringHash(h) && ToStringHash(h)[k] == Decimal.IntToText(h[k].value.n)
  {
  }

  /** A string is kept, unchanged, exactly when it is non-empty. */
  lemma TextKeptIffNonEmpty(h: LegalHash, k: string, s: string)
    requires k in h && h[k] == Some(Text(s))
    ensures k in ToStringHash(h) <==> s != ""
    ensures k in ToStringHash(h) ==> ToStringHash(h)[k] == s
  {
  }

  /** A hash whose values are non-empty strings passes through unchanged. */
  lemma {:induction false} FixedPoint(m: StringHash)
    requires forall k :: k in m ==> m[k] != ""
    ensures ToStringHash(Lift(m)) == m
  {
    var r := ToStringHash(Lift(m));
    assert r.Keys == m.Keys;
    forall k | k in m ensures r[k] == m[k] {
      assert Stringify(Lift(m)[k]) == m[k];
    }
  }

  /** Applying `toStringHash` to its own output changes nothing. */
  lemma Idempotent(h: LegalHash)
    ensures ToStringHash(Lift(ToStringHash(h))) == ToStringHash(h)
  {
    FixedPoint(ToStringHash(h));
  }
}
