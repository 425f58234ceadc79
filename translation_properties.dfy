/** What the translation table promises its callers: properties of the table the
    constructor builds and of the three queries over it. */
module TranslationProperties {
  import opened Wrappers
  import opened Ascii
  import opened Translation

  /** Distinct field names keep distinct codes, so no language is lost to a collision. */
  lemma {:induction false} UpperKeysCard(fields: set<string>)
    requires NoCollision(fields)
    ensures |UpperKeys(fields)| == |fields|
    decreases |fields|
  {
    if fields != {} {
      var k :| k in fields;
      var rest := fields - {k};
      assert NoCollision(rest);
      UpperKeysCard(rest);
      UpperKeysAdd(rest, k);
      assert Upper(k) !in UpperKeys(rest);
      assert fields == rest + {k};
    }
  }

  /** Per-country keys: without collisions, every language field of the record
      appears exactly once, under its upper-cased name, with its own value. */
  lemma CountryDataFields(country: Record, names: Names)
    requires IsCountryData(country, names)
    requires NoCollision(LanguageFields(country))
    ensures forall k :: k in LanguageFields(country) ==> Upper(k) in names && names[Upper(k)] == country[k]
    ensures |names| == |LanguageFields(country)|
  {
    forall k | k in LanguageFields(country)
      ensures Upper(k) in names && names[Upper(k)] == country[k]
    {
      assert Upper(k) in UpperKeys(LanguageFields(country));
      var f :| f in LanguageFields(country) && Upper(f) == Upper(k) && names[Upper(k)] == country[f];
    }
    UpperKeysCard(LanguageFields(country));
    assert names.Keys == UpperKeys(LanguageFields(country));
  }

  /** Without collisions a record determines its names: the HashMap order cannot matter. */
  lemma CountryDataUnique(country: Record, names: Names, names': Names)
    requires IsCountryData(country, names) && IsCountryData(country, names')
    requires NoCollision(LanguageFields(country))
    ensures names == names'
  {
    CountryDataFields(country, names);
    CountryDataFields(country, names');
    forall code | code in names ensures names[code] == names'[code] {
      var k :| k in LanguageFields(country) && Upper(k) == code && names[code] == country[k];
    }
  }

  /** Country set: the table's keys are exactly the upper-cased alpha3 codes of the records. */
  lemma CountriesAreCodes(records: seq<Record>, table: Table, c: string)
    requires HasCodes(records, |records|) && IsTableOf(records, table)
    ensures c in table <==> exists i :: 0 <= i < |records| && CodeOf(records[i]) == c
  {
    if c in table {
      assert c in CodesOf(records, |records|);
    }
    if exists i :: 0 <= i < |records| && CodeOf(records[i]) == c {
      var i :| 0 <= i < |records| && CodeOf(records[i]) == c;
      assert c in CodesOf(records, |records|);
    }
  }

  /** Duplicate codes: when records i < j share a code (case-insensitively), the
      entry under that code comes wholly from a record at or after j. */
  lemma LaterRecordWins(records: seq<Record>, table: Table, i: nat, j: nat)
    requires HasCodes(records, |records|) && IsTableOf(records, table)
    requires i < j < |records| && CodeOf(records[i]) == CodeOf(records[j])
    ensures CodeOf(records[i]) in table
    ensures var last := LastWithCode(records, j);
            j <= last && IsCountryData(records[last], table[CodeOf(records[i])])
  {
    CountriesAreCodes(records, table, CodeOf(records[i]));
    var last := LastWithCode(records, j);
    assert IsCountryData(records[last], table[CodeOf(records[last])]);
  }

  /** Case-insensitive translate: only the upper-cased arguments matter. */
  lemma TranslateCaseInsensitive(tr: JSONTranslator, country: string, language: string)
    ensures tr.Translate(country, language) == tr.Translate(Upper(country), Upper(language))
  {
    UpperIdempotent(country);
    UpperIdempotent(language);
  }

  /** Translate outcomes for an unknown country: it fails. */
  lemma TranslateUnknownCountry(tr: JSONTranslator, records: seq<Record>, country: string, language: string)
    requires HasCodes(records, |records|) && IsTableOf(records, tr.translationData)
    ensures tr.Translate(country, language) == Failure(NullPointer) <==>
            forall i :: 0 <= i < |records| ==> CodeOf(records[i]) != Upper(country)
  {
    CountriesAreCodes(records, tr.translationData, Upper(country));
  }

  /** Translate outcomes for a known country whose last record is i: absent when
      no language field of that record matches, its value when one does, and in
      any case a value that one matching field holds. */
  lemma TranslateKnownCountry(tr: JSONTranslator, records: seq<Record>, i: nat, country: string, language: string)
    requires HasCodes(records, |records|) && IsTableOf(records, tr.translationData)
    requires i < |records| && CodeOf(records[i]) == Upper(country) && IsLastWithCode(records, |records|, i)
    ensures tr.Translate(country, language).Success?
    ensures tr.Translate(country, language).value == None <==>
            forall k :: k in LanguageFields(records[i]) ==> Upper(k) != Upper(language)
    ensures tr.Translate(country, language).value.Some? ==>
            exists k :: k in LanguageFields(records[i]) && Upper(k) == Upper(language) &&
                        tr.Translate(country, language).value.value == records[i][k]
    ensures NoCollision(LanguageFields(records[i])) ==>
            forall k :: k in LanguageFields(records[i]) && Upper(k) == Upper(language) ==>
                        tr.Translate(country, language) == Success(Some(records[i][k]))
  {
    var names := tr.translationData[Upper(country)];
    assert IsCountryData(records[i], names);
    if exists k :: k in LanguageFields(records[i]) && Upper(k) == Upper(language) {
      var k :| k in LanguageFields(records[i]) && Upper(k) == Upper(language);
      assert Upper(language) in UpperKeys(LanguageFields(records[i]));
    }
    if NoCollision(LanguageFields(records[i])) {
      CountryDataFields(records[i], names);
    }
  }

  /** Country languages after loading, as written: without collisions, the
      multiplicity of a name among a country's languages is the number of its
      record's language fields holding that name, or zero for "id", "alpha2" and
      "alpha3". */
  lemma LanguagesAfterLoad(records: seq<Record>, table: Table, i: nat, v: string)
    requires HasCodes(records, |records|) && IsTableOf(records, table)
    requires i < |records| && IsLastWithCode(records, |records|, i)
    requires NoCollision(LanguageFields(records[i]))
    ensures var names := table[CodeOf(records[i])];
            NameCount(names, names.Keys, v) ==
            if v in ReservedFields then 0 else |set k | k in LanguageFields(records[i]) && records[i][k] == v|
  {
    var country := records[i];
    var names := table[CodeOf(country)];
    assert IsCountryData(country, names);
    if v !in ReservedFields {
      var fields := set k | k in LanguageFields(country) && country[k] == v;
      HoldersAreImage(country, names, v);
      assert NoCollision(fields);
      UpperKeysCard(fields);
    }
  }

  /** Without collisions, the codes holding a name are the upper-cased fields holding it. */
  lemma HoldersAreImage(country: Record, names: Names, v: string)
    requires IsCountryData(country, names)
    requires NoCollision(LanguageFields(country))
    ensures (set c | c in names.Keys && c in names && names[c] == v) ==
            UpperKeys(set k | k in LanguageFields(country) && country[k] == v)
  {
    var fields := set k | k in LanguageFields(country) && country[k] == v;
    var codes := set c | c in names.Keys && c in names && names[c] == v;
    forall c | c in codes ensures c in UpperKeys(fields) {
      var k :| k in LanguageFields(country) && Upper(k) == c && names[c] == country[k];
      assert k in fields;
    }
    forall c | c in UpperKeys(fields) ensures c in codes {
      var k :| k in fields && Upper(k) == c;
      CountryDataFields(country, names);
      assert names[c] == country[k];
    }
    assert codes == UpperKeys(fields);
  }

  // A concrete scenario: one record for the United States, in English and Spanish.

  function SampleRecord(): Record {
    map["id" := "1", "alpha2" := "us", "alpha3" := "usa", "en" := "United States", "es" := "Estados Unidos"]
  }

  function SampleNames(): Names {
    map["EN" := "United States", "ES" := "Estados Unidos"]
  }

  /** Loading the one sample record gives the table {USA: {EN, ES}}. */
  lemma SampleTable(table: Table)
    requires HasCodes([SampleRecord()], 1)
    requires IsTableOf([SampleRecord()], table)
    ensures table == map["USA" := SampleNames()]
  {
    var records := [SampleRecord()];
    var country := SampleRecord();
    assert table.Keys == {"USA"} by {
      assert CodeOf(records[0]) == "USA" by {
        SampleCodes();
      }
      assert CodesOf(records, 1) == {"USA"};
    }
    assert IsLastWithCode(records, 1, 0);
    SampleCodes();
    var names := table["USA"];
    assert IsCountryData(country, names);
    SampleFields();
    forall code | code in names ensures names[code] == SampleNames()[code] {
      var k :| k in LanguageFields(country) && Upper(k) == code && names[code] == country[k];
    }
    assert names == SampleNames();
  }

  /** The sample record's language fields, and the codes they become. */
  lemma SampleFields()
    ensures LanguageFields(SampleRecord()) == {"en", "es"}
    ensures UpperKeys({"en", "es"}) == {"EN", "ES"}
  {
    SampleCodes();
  }

  /** The upper-cased codes of the sample, character by character. */
  lemma SampleCodes()
    ensures Upper("usa") == "USA" && Upper("en") == "EN" && Upper("es") == "ES"
  {
    UpperAt("usa", 0); UpperAt("usa", 1); UpperAt("usa", 2);
    UpperAt("en", 0); UpperAt("en", 1);
    UpperAt("es", 0); UpperAt("es", 1);
  }

  /** The sample translation that exists: Spanish, with the country code in lower case. */
  lemma SampleTranslate(tr: JSONTranslator)
    requires tr.translationData == map["USA" := SampleNames()]
    ensures tr.Translate("usa", "es") == Success(Some("Estados Unidos"))
  {
    SampleCodes();
  }

  /** On the sample, French is absent. */
  lemma SampleTranslateMissing(tr: JSONTranslator)
    requires tr.translationData == map["USA" := SampleNames()]
    ensures tr.Translate("usa", "fr") == Success(None)
  {
    SampleCodes();
    UpperAt("fr", 0);
  }

  /** On the sample, no string longer than a two-letter code (the name "United
      States" that getCountryLanguages lists, say) is a language translate knows. */
  lemma SampleTranslateName(tr: JSONTranslator, name: string)
    requires tr.translationData == map["USA" := SampleNames()]
    requires |name| > 2
    ensures tr.Translate("usa", name) == Success(None)
  {
    SampleCodes();
  }

  /** On the sample, an unknown country fails. */
  lemma SampleTranslateUnknown(tr: JSONTranslator)
    requires tr.translationData == map["USA" := SampleNames()]
    ensures tr.Translate("can", "en") == Failure(NullPointer)
  {
    UpperAt("can", 0);
  }

  /** As written, getCountryLanguages on the sample lists the name "United
      States" once and the code "EN" not at all. */
  lemma SampleLanguagesAreNames()
    ensures NameCount(SampleNames(), SampleNames().Keys, "United States") == 1
    ensures NameCount(SampleNames(), SampleNames().Keys, "EN") == 0
  {
    var names := SampleNames();
    assert NameCount(names, names.Keys, "United States") == 1 by {
      assert "Estados Unidos" != "United States" by {
        assert |"Estados Unidos"| == 14;
      }
      assert "United States" !in ReservedFields;
      assert (set k | k in names.Keys && k in names && names[k] == "United States") == {"EN"};
    }
    assert "EN" !in ReservedFields;
    assert (set k | k in names.Keys && k in names && names[k] == "EN") == {};
  }

  /** As written, line 56 fails on the sample record even though it has an alpha3 field. */
  lemma SampleAlpha3AsWritten()
    ensures GetString(SampleRecord(), Alpha3) == Success("usa")
    ensures ReadAlpha3AsWritten(SampleRecord()).Failure?
  {
  }
}
