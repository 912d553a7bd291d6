/** The value of the `CONSENT` cookie: '+'-separated fields whose first field
    is the consent flag; the other fields are opaque and kept verbatim. */
module ConsentCodec {
  import opened Text

  const ConsentCookieName := "CONSENT"
  const Affirmative := "YES"
  const FieldSeparator := '+'

  /** `cookie.value.split("+")`. */
  function Fields(value: string): seq<string>
  {
    Split(value, FieldSeparator)
  }

  /** `consentData[0] === "YES"`: exact, case-sensitive comparison of field 0. */
  predicate IsAffirmative(value: string)
  {
    Fields(value)[0] == Affirmative
  }

  /** `consentData[0] = "YES"`: the field sequence with the flag overwritten. */
  function WithAffirmative(fields: seq<string>): (r: seq<string>)
    requires |fields| >= 1
    ensures |r| == |fields|
    ensures r[0] == Affirmative
    ensures r[1..] == fields[1..]
  {
    fields[0 := Affirmative]
  }

  /** `consentData.join("+")` after the overwrite. */
  function Affirmed(value: string): string
  {
    Join(WithAffirmative(Fields(value)), FieldSeparator)
  }

  /** Parsing a value and serialising the fields again is lossless, for every
      string, the empty one included. */
  lemma FieldsRoundTrip(value: string)
    ensures |Fields(value)| >= 1
    ensures Join(Fields(value), FieldSeparator) == value
  {
    JoinSplit(value, FieldSeparator);
  }

  /** The rewritten value parses back to the same number of fields, with the
      flag set and every other field unchanged; so it is affirmative. */
  lemma AffirmedFields(value: string)
    ensures Fields(Affirmed(value)) == WithAffirmative(Fields(value))
    ensures |Fields(Affirmed(value))| == |Fields(value)|
    ensures Fields(Affirmed(value))[1..] == Fields(value)[1..]
    ensures IsAffirmative(Affirmed(value))
  {
    var fs := WithAffirmative(Fields(value));
    forall i | 0 <= i < |fs| ensures FieldSeparator !in fs[i] {
      if i > 0 {
        assert fs[i] == Fields(value)[i];
      }
    }
    SplitJoin(fs, FieldSeparator);
  }

  /** An already affirmative value is a fixed point of the rewrite, and the
      rewrite is idempotent. */
  lemma AffirmedIdempotent(value: string)
    ensures IsAffirmative(value) ==> Affirmed(value) == value
    ensures Affirmed(Affirmed(value)) == Affirmed(value)
  {
    FieldsRoundTrip(value);
    if IsAffirmative(value) {
      assert WithAffirmative(Fields(value)) == Fields(value);
    }
    AffirmedFields(value);
    FieldsRoundTrip(Affirmed(value));
    assert WithAffirmative(Fields(Affirmed(value))) == Fields(Affirmed(value));
  }
}
