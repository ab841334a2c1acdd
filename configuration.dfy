/**
 * The configuration base class: the rewriting of private (`#`-prefixed)
 * parameter names into identifiers a dataclass can declare, its inverse,
 * and the list of required parameters derived from a dataclass's fields.
 */
module Configuration {
  import opened Text

  /** A quote followed by `#`: how a private key starts inside a JSON text. */
  const QuoteHash := "\"#"
  /** What `QuoteHash` is rewritten to. */
  const QuotePswd := "\"pswd_"
  /** The identifier prefix standing for `#`. */
  const Pswd := "pswd_"

  /**
   * `_convert_private_value`: rewrite every `"#` of a JSON text into
   * `"pswd_`. No `"#` is left afterwards, and the text grows by four
   * characters per occurrence found.
   */
  function ConvertPrivateValue(value: string): (r: string)
    ensures !Occurs(r, QuoteHash)
    ensures |r| == |value| + 4 * Count(value, QuoteHash)
  {
    ConvertedFacts(value);
    ReplaceAllLength(value, QuoteHash, QuotePswd);
    ReplaceAll(value, QuoteHash, QuotePswd)
  }

  /**
   * `_convert_private_value_inv`: a name that starts with `pswd_` gets that
   * prefix replaced by `#`; every other name, the empty one included, is kept.
   */
  function ConvertPrivateValueInv(value: string): (r: string)
    ensures StartsWith(value, Pswd) ==> r == "#" + value[|Pswd|..]
    ensures !StartsWith(value, Pswd) ==> r == value
  {
    if value != [] && StartsWith(value, Pswd) then
      ReplaceFirst(value, Pswd, "#")
    else value
  }

  /**
   * The facts about the rewritten text that an induction over the input
   * needs: it holds no `"#`, and it starts with `#` exactly when the input does.
   */
  lemma {:induction false} ConvertedFacts(s: string)
    ensures !Occurs(ReplaceAll(s, QuoteHash, QuotePswd), QuoteHash)
    ensures (ReplaceAll(s, QuoteHash, QuotePswd) == []) == (s == [])
    ensures s != [] ==> (ReplaceAll(s, QuoteHash, QuotePswd)[0] == '#' <==> s[0] == '#')
    decreases |s|
  {
    var r := ReplaceAll(s, QuoteHash, QuotePswd);
    if s == [] {
      assert r == [];
    } else if StartsWith(s, QuoteHash) {
      var rest := ReplaceAll(s[2..], QuoteHash, QuotePswd);
      ConvertedFacts(s[2..]);
      assert r == QuotePswd + rest;
      AbsentChar(QuotePswd, QuoteHash, 1);
      NoPairInConcat(QuotePswd, rest, QuoteHash);
    } else {
      var rest := ReplaceAll(s[1..], QuoteHash, QuotePswd);
      ConvertedFacts(s[1..]);
      assert r == [s[0]] + rest;
      ShorterThanPattern([s[0]], QuoteHash);
      NoPairInConcat([s[0]], rest, QuoteHash);
    }
  }

  /** Rewriting an already rewritten text changes nothing. */
  lemma ConvertIdempotent(value: string)
    ensures ConvertPrivateValue(ConvertPrivateValue(value)) == ConvertPrivateValue(value)
  {
  }

  /** A name that has been through the inverse no longer starts with `pswd_`, so a second pass keeps it. */
  lemma ConvertInvIdempotent(value: string)
    ensures ConvertPrivateValueInv(ConvertPrivateValueInv(value)) == ConvertPrivateValueInv(value)
  {
    var r := ConvertPrivateValueInv(value);
    if StartsWith(value, Pswd) {
      MismatchNotStartsWith(r, Pswd, 0);
    }
  }

  /**
   * The round trip of a private key: the JSON key `"#t` becomes `"pswd_t`,
   * the dataclass field `pswd_t`, and the inverse turns that field name back
   * into the key `#t`.
   */
  lemma PrivateKeyRoundTrip(t: string)
    requires !Occurs(t, QuoteHash)
    ensures ConvertPrivateValue(QuoteHash + t) == QuotePswd + t
    ensures ConvertPrivateValueInv(Pswd + t) == "#" + t
    ensures ConvertPrivateValueInv(ConvertPrivateValue(QuoteHash + t)[1..]) == "#" + t
  {
    ReplaceAllAtStart(t, QuoteHash, QuotePswd);
    assert ConvertPrivateValue(QuoteHash + t) == QuotePswd + t;
    var name := Pswd + t;
    assert name[..|Pswd|] == Pswd;
    assert name[|Pswd|..] == t;
    assert (QuotePswd + t)[1..] == name;
  }

  /**
   * The rewriting works on the whole JSON text, so a string value that
   * starts with `#` is rewritten like a key: after `: ` the value `"#t`
   * becomes `"pswd_t`.
   */
  lemma PrivateLookingValueRewritten(t: string)
    requires !Occurs(t, QuoteHash)
    ensures ConvertPrivateValue(": " + QuoteHash + t) == ": " + QuotePswd + t
  {
    assert ": " + QuoteHash + t == ": " + (QuoteHash + t);
    ReplaceAllSkipsPrefix(": ", QuoteHash + t, QuoteHash, QuotePswd);
    ReplaceAllAtStart(t, QuoteHash, QuotePswd);
    assert ": " + QuotePswd + t == ": " + (QuotePswd + t);
  }

  /** A dataclass field as `dataclasses.fields` reports it. */
  datatype Field = Field(name: string, hasDefault: bool, hasDefaultFactory: bool)

  /** A field with neither a default value nor a default factory. */
  predicate IsRequired(f: Field)
  {
    !f.hasDefault && !f.hasDefaultFactory
  }

  /**
   * `get_dataclass_required_parameters`: the inverse-converted names of the
   * required fields, in declaration order.
   */
  function RequiredParameters(fields: seq<Field>): (r: seq<string>)
    ensures |r| <= |fields|
    ensures forall n :: n in r <==> exists f :: f in fields && IsRequired(f) && n == ConvertPrivateValueInv(f.name)
  {
    if fields == [] then []
    else
      (if IsRequired(fields[0]) then [ConvertPrivateValueInv(fields[0].name)] else [])
      + RequiredParameters(fields[1..])
  }

  /** The list is built field by field: declaration order is kept across any split of the fields. */
  lemma {:induction false} RequiredParametersAppend(a: seq<Field>, b: seq<Field>)
    ensures RequiredParameters(a + b) == RequiredParameters(a) + RequiredParameters(b)
    decreases |a|
  {
    if a == [] {
      assert a + b == b;
    } else {
      assert (a + b)[1..] == a[1..] + b;
      RequiredParametersAppend(a[1..], b);
    }
  }

  /** A single field contributes its converted name exactly when it is required. */
  lemma RequiredParametersSingle(f: Field)
    ensures RequiredParameters([f]) == if IsRequired(f) then [ConvertPrivateValueInv(f.name)] else []
  {
    assert [f][1..] == [];
  }

  /** The fields of `Configuration`, in declaration order. */
  const ConfigurationFields := [
    Field("credentials", false, false),
    Field("report_settings", false, false),
    Field("destination", false, false),
    Field("country", true, false)
  ]

  /** The fields of `Credentials`: both have an empty default. */
  const CredentialsFields := [
    Field("email", true, false),
    Field("pswd_password", true, false)
  ]

  /** `Configuration` requires its three nested sections and not `country`, which has a default. */
  lemma ConfigurationRequiredParameters()
    ensures RequiredParameters(ConfigurationFields) == ["credentials", "report_settings", "destination"]
    ensures "country" !in RequiredParameters(ConfigurationFields)
  {
    var fs := ConfigurationFields;
    assert fs == [fs[0]] + [fs[1]] + [fs[2]] + [fs[3]];
    RequiredParametersAppend([fs[0]] + [fs[1]] + [fs[2]], [fs[3]]);
    RequiredParametersAppend([fs[0]] + [fs[1]], [fs[2]]);
    RequiredParametersAppend([fs[0]], [fs[1]]);
    RequiredParametersSingle(fs[0]);
    RequiredParametersSingle(fs[1]);
    RequiredParametersSingle(fs[2]);
    RequiredParametersSingle(fs[3]);
    MismatchNotStartsWith("credentials", Pswd, 0);
    MismatchNotStartsWith("report_settings", Pswd, 0);
    MismatchNotStartsWith("destination", Pswd, 0);
  }

  /** `Credentials` requires nothing: its private field `pswd_password` has a default. */
  lemma CredentialsRequiredParameters()
    ensures RequiredParameters(CredentialsFields) == []
  {
    var fs := CredentialsFields;
    assert fs == [fs[0]] + [fs[1]];
    RequiredParametersAppend([fs[0]], [fs[1]]);
    RequiredParametersSingle(fs[0]);
    RequiredParametersSingle(fs[1]);
  }
}
