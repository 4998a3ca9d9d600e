/**
 * The fixed set of recognition languages: the allow-list the request
 * handler checks against, its default, and the catalog of display names
 * served by the informational endpoint.
 */
module Languages {
  import opened Wrappers

  /** The allow-list, in the order the source lists it. */
  const Supported: seq<string> := ["eng", "ukr", "eng+ukr"]

  /** The language used when the request carries no `language` field. */
  const Default: string := "eng"

  predicate IsSupported(language: string) {
    language in Supported
  }

  /** `request.form.get('language', 'eng')`: the field's value when present
      (even when empty), the default otherwise. */
  function Resolve(field: Option<string>): string {
    field.GetOr(Default)
  }

  /** The error text for a rejected language: the f-string at src/app.py:47
      renders the allow-list as Python prints a list of strings. It does not
      mention the rejected value. */
  const UnsupportedMessage: string :=
    "Unsupported language. Supported languages: ['eng', 'ukr', 'eng+ukr']"

  /** The display name of every supported language. */
  function Catalog(): map<string, string> {
    map["eng" := "English", "ukr" := "Ukrainian", "eng+ukr" := "English + Ukrainian"]
  }

  /** The catalog lists exactly the allow-list, with the fixed display names. */
  lemma CatalogMatchesAllowList()
    ensures forall language :: language in Catalog() <==> IsSupported(language)
    ensures |Catalog()| == 3
    ensures Catalog()["eng"] == "English"
    ensures Catalog()["ukr"] == "Ukrainian"
    ensures Catalog()["eng+ukr"] == "English + Ukrainian"
  {
    assert Catalog().Keys == {"eng", "ukr", "eng+ukr"};
  }

  /** An absent field resolves to English, which is allowed; a present field is
      taken as it is, so an empty value is rejected rather than defaulted. */
  lemma ResolveDefaults(field: Option<string>)
    ensures field.None? ==> Resolve(field) == "eng" && IsSupported(Resolve(field))
    ensures field.Some? ==> Resolve(field) == field.value
    ensures field == Some("") ==> !IsSupported(Resolve(field))
  {
  }
}
