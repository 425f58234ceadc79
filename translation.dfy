/** The translation table of JSONTranslator: built once from the records of
    the data file, then queried by country code and language code. */
module Translation {
  import opened Wrappers
  import opened Ascii

  /** One object of the data file's JSON array, already parsed: field name to string value. */
  type Record = map<string, string>

  /** Names of one country: upper-cased language code to the country's name in that language. */
  type Names = map<string, string>

  /** translationData: upper-cased alpha3 code to that country's names. */
  type Table = map<string, Names>

  const Alpha3: string := "alpha3"

  /** The fields of a record that are not languages. */
  const ReservedFields: set<string> := {"id", "alpha2", Alpha3}

  datatype Error =
    | KeyNotFound(key: string)  // org.json's JSONException: the object has no such key
    | NullPointer               // a method was called on the null a map lookup returned

  /** JSONObject.getString on an object whose values are all strings. */
  function GetString(obj: Record, key: string): (r: Result<string, Error>)
    ensures r.Success? <==> key in obj
    ensures r.Success? ==> r.value == obj[key]
    ensures r.Failure? ==> r.error == KeyNotFound(key)
  {
    if key in obj then Success(obj[key]) else Failure(KeyNotFound(key))
  }

  /** The key line 56 stores a record under. */
  function CodeOf(country: Record): string
    requires Alpha3 in country
  {
    Upper(country[Alpha3])
  }

  /** The record's fields that name a language. */
  function LanguageFields(country: Record): set<string> {
    country.Keys - ReservedFields
  }

  /** The upper-cased images of a set of field names. */
  function UpperKeys(fields: set<string>): set<string> {
    set k | k in fields :: Upper(k)
  }

  /** No two fields of the set upper-case to the same language code. */
  ghost predicate NoCollision(fields: set<string>) {
    forall k, k' :: k in fields && k' in fields && Upper(k) == Upper(k') ==> k == k'
  }

  /** What lines 49-53 may produce for one record: one entry per upper-cased
      language field, each holding the value of a field that upper-cases to it.
      When two fields collide, the HashMap iteration order picks the survivor. */
  ghost predicate IsCountryData(country: Record, names: Names) {
    && names.Keys == UpperKeys(LanguageFields(country))
    && forall code :: code in names ==>
         exists k :: k in LanguageFields(country) && Upper(k) == code && names[code] == country[k]
  }

  /** The first n records all carry an alpha3 field. */
  predicate HasCodes(records: seq<Record>, n: nat) {
    n <= |records| && forall i :: 0 <= i < n ==> Alpha3 in records[i]
  }

  /** Record i is the last of the first n records stored under its code. */
  ghost predicate IsLastWithCode(records: seq<Record>, n: nat, i: nat)
    requires HasCodes(records, n) && i < n
  {
    forall j :: i < j < n ==> CodeOf(records[j]) != CodeOf(records[i])
  }

  /** The set of codes of the first n records. */
  ghost function CodesOf(records: seq<Record>, n: nat): set<string>
    requires HasCodes(records, n)
  {
    set i | 0 <= i < n :: CodeOf(records[i])
  }

  /** The table the constructor's loop holds after its first n iterations:
      one entry per code, filled from the last record with that code. */
  ghost predicate IsTablePrefix(records: seq<Record>, n: nat, table: Table)
    requires HasCodes(records, n)
  {
    && table.Keys == CodesOf(records, n)
    && forall i :: 0 <= i < n && IsLastWithCode(records, n, i) ==>
         IsCountryData(records[i], table[CodeOf(records[i])])
  }

  /** The table the constructor builds from all the records. */
  ghost predicate IsTableOf(records: seq<Record>, table: Table)
    requires HasCodes(records, |records|)
  {
    IsTablePrefix(records, |records|, table)
  }

  /** Every code in the table, and every language code under it, is upper-case. */
  ghost predicate WellFormed(table: Table) {
    forall code :: code in table ==>
      NoLower(code) && forall lang :: lang in table[code] ==> NoLower(lang)
  }

  /** How many of the given keys of names hold the value v, counting nothing when v
      is one of the reserved field names that getCountryLanguages filters out. */
  ghost function NameCount(names: Names, keys: set<string>, v: string): nat {
    if v in ReservedFields then 0 else |set k | k in keys && k in names && names[k] == v|
  }

  /** A duplicate-free sequence. */
  predicate Distinct(s: seq<string>) {
    forall i, j :: 0 <= i < j < |s| ==> s[i] != s[j]
  }

  /** getLanguageKeys (lines 88-93), taking the key set as a copy so that the
      record itself keeps its alpha3 field for line 56. */
  method GetLanguageKeys(country: Record) returns (keys: set<string>)
    ensures keys == LanguageFields(country)
  {
    keys := country.Keys;
    keys := keys - {"id"};
    keys := keys - {"alpha2"};
    keys := keys - {Alpha3};
  }

  /** The inner loop of the constructor (lines 47-53): one record's names,
      keyed by upper-cased field name, visited in an unspecified order. */
  method CountryData(country: Record) returns (names: Names)
    ensures IsCountryData(country, names)
  {
    var keys := GetLanguageKeys(country);
    names := map[];
    // the field each entry was last written from
    ghost var source: map<string, string> := map[];
    var rest := keys;
    while rest != {}
      invariant rest <= keys
      invariant SourcedFrom(country, keys - rest, names, source)
      decreases |rest|
    {
      var key :| key in rest;
      SourcedFromStep(country, keys, rest, names, source, key);
      names := names[Upper(key) := country[key]];
      source := source[Upper(key) := key];
      rest := rest - {key};
    }
    SourcedFromIsCountryData(country, keys, rest, names, source);
  }

  /** The loop invariant of CountryData: after visiting the fields in done, every
      entry of names was written from a visited field, recorded in source. */
  ghost predicate SourcedFrom(country: Record, done: set<string>, names: Names, source: map<string, string>) {
    && names.Keys == source.Keys == UpperKeys(done)
    && forall code :: code in source ==>
         source[code] in done && source[code] in country && Upper(source[code]) == code && names[code] == country[source[code]]
  }

  lemma SourcedFromStep(country: Record, keys: set<string>, rest: set<string>, names: Names, source: map<string, string>, key: string)
    requires SourcedFrom(country, keys - rest, names, source)
    requires rest <= keys <= country.Keys && key in rest
    ensures SourcedFrom(country, keys - (rest - {key}), names[Upper(key) := country[key]], source[Upper(key) := key])
  {
    assert keys - (rest - {key}) == (keys - rest) + {key};
    UpperKeysAdd(keys - rest, key);
  }

  lemma SourcedFromIsCountryData(country: Record, keys: set<string>, rest: set<string>, names: Names, source: map<string, string>)
    requires forall k :: k in keys <==> k in country && k != "id" && k != "alpha2" && k != Alpha3
    requires rest == {}
    requires SourcedFrom(country, keys - rest, names, source)
    ensures IsCountryData(country, names)
  {
    assert keys - rest == LanguageFields(country);
    forall code | code in names
      ensures exists k :: k in LanguageFields(country) && Upper(k) == code && names[code] == country[k]
    {
      var k := source[code];
      assert k in LanguageFields(country) && Upper(k) == code && names[code] == country[k];
    }
  }

  /** new ArrayList<>(set): every element once, in an unspecified order. */
  method SetToSeq(s: set<string>) returns (r: seq<string>)
    ensures Distinct(r)
    ensures forall x :: x in r <==> x in s
    ensures |r| == |s|
  {
    r := [];
    var rest := s;
    while rest != {}
      invariant rest <= s
      invariant Distinct(r)
      invariant forall x :: x in r <==> x in s - rest
      invariant |r| + |rest| == |s|
      decreases |rest|
    {
      var x :| x in rest;
      assert x !in r;
      r := r + [x];
      rest := rest - {x};
    }
  }

  /** A step of UpperKeys: one more field adds its upper-cased name. */
  lemma UpperKeysAdd(fields: set<string>, k: string)
    ensures UpperKeys(fields + {k}) == UpperKeys(fields) + {Upper(k)}
  {
  }

  /** A step of NameCount: adding one key adds one exactly when that key holds v. */
  lemma NameCountAdd(names: Names, keys: set<string>, k: string, v: string)
    requires k in names && k !in keys
    ensures NameCount(names, keys + {k}, v) ==
            NameCount(names, keys, v) + (if names[k] == v && v !in ReservedFields then 1 else 0)
  {
    var before := set x | x in keys && x in names && names[x] == v;
    var after := set x | x in keys + {k} && x in names && names[x] == v;
    if names[k] == v {
      assert after == before + {k};
    } else {
      assert after == before;
    }
  }

  /** The key set of the table grows by one code with each record. */
  lemma CodesOfStep(records: seq<Record>, n: nat)
    requires HasCodes(records, n + 1)
    ensures CodesOf(records, n + 1) == CodesOf(records, n) + {CodeOf(records[n])}
  {
    var lhs := CodesOf(records, n + 1);
    var rhs := CodesOf(records, n) + {CodeOf(records[n])};
    forall c | c in lhs ensures c in rhs {
      var i :| 0 <= i < n + 1 && CodeOf(records[i]) == c;
      if i < n { assert c in CodesOf(records, n); }
    }
  }

  /** One iteration of the constructor's loop keeps the table in step with the records read. */
  lemma TablePrefixStep(records: seq<Record>, n: nat, table: Table, names: Names)
    requires HasCodes(records, n + 1)
    requires IsTablePrefix(records, n, table)
    requires IsCountryData(records[n], names)
    ensures IsTablePrefix(records, n + 1, table[CodeOf(records[n]) := names])
  {
    CodesOfStep(records, n);
    LastEntriesStep(records, n, table, names);
  }

  /** The entries part of TablePrefixStep: the new record's entry is its own names, and
      every older entry whose code differs is untouched. */
  lemma LastEntriesStep(records: seq<Record>, n: nat, table: Table, names: Names)
    requires HasCodes(records, n + 1)
    requires IsTablePrefix(records, n, table)
    requires IsCountryData(records[n], names)
    ensures forall i :: 0 <= i < n + 1 && IsLastWithCode(records, n + 1, i) ==>
              IsCountryData(records[i], table[CodeOf(records[n]) := names][CodeOf(records[i])])
  {
    var table' := table[CodeOf(records[n]) := names];
    forall i | 0 <= i < n + 1 && IsLastWithCode(records, n + 1, i)
      ensures IsCountryData(records[i], table'[CodeOf(records[i])])
    {
      if i < n {
        assert CodeOf(records[n]) != CodeOf(records[i]);
        assert IsLastWithCode(records, n, i);
      }
    }
  }

  /** The Java class. translationData is final and written only while loading. */
  class JSONTranslator {
    var translationData: Table

    ghost predicate Valid()
      reads this
    {
      WellFormed(translationData)
    }

    /** The field initialiser of line 18: an empty HashMap. */
    constructor ()
      ensures translationData == map[]
      ensures Valid()
    {
      translationData := map[];
    }

    /** The constructor JSONTranslator(filename), lines 35-62, from the parsed
        records on: each record's names are stored under its upper-cased alpha3
        code, a later record replacing an earlier one with the same code. A record
        without alpha3 makes getString throw, and no translator is made. The code
        is read from the record as given, with its alpha3 field intact; line 56 as
        written reads it after the removals instead (ReadAlpha3AsWritten). */
    static method Load(records: seq<Record>) returns (r: Result<JSONTranslator, Error>)
      ensures r.Success? <==> HasCodes(records, |records|)
      ensures r.Failure? ==> r.error == KeyNotFound(Alpha3)
      ensures r.Success? ==> fresh(r.value) && r.value.Valid()
      ensures r.Success? ==> IsTableOf(records, r.value.translationData)
    {
      var translator := new JSONTranslator();
      for i := 0 to |records|
        invariant HasCodes(records, i)
        invariant IsTablePrefix(records, i, translator.translationData)
      {
        var country := records[i];
        var countryData := CountryData(country);
        var code := GetString(country, Alpha3);
        if code.Failure? {
          return Failure(code.error);
        }
        TablePrefixStep(records, i, translator.translationData, countryData);
        translator.translationData := translator.translationData[Upper(code.value) := countryData];
      }
      TableIsWellFormed(records, translator.translationData);
      return Success(translator);
    }

    /** getCountryLanguages (lines 65-75) as written: the VALUES of the country's
        map, i.e. its names, minus any that equal "id", "alpha3" or "alpha2". The
        order follows the HashMap, so only the multiset is stated. An unknown
        country is a null map, and calling values() on it fails. */
    method GetCountryLanguages(countryCode: string) returns (r: Result<seq<string>, Error>)
      ensures r.Failure? <==> Upper(countryCode) !in translationData
      ensures r.Failure? ==> r.error == NullPointer
      ensures r.Success? ==>
                var names := translationData[Upper(countryCode)];
                forall v :: multiset(r.value)[v] == NameCount(names, names.Keys, v)
    {
      var code := Upper(countryCode);
      if code !in translationData {
        return Failure(NullPointer);
      }
      var names := translationData[code];
      var countryLanguages: seq<string> := [];
      var rest := names.Keys;
      while rest != {}
        invariant rest <= names.Keys
        invariant forall v :: multiset(countryLanguages)[v] == NameCount(names, names.Keys - rest, v)
        decreases |rest|
      {
        var key :| key in rest;
        var value := names[key];
        if value != "id" && value != Alpha3 && value != "alpha2" {
          countryLanguages := countryLanguages + [value];
        }
        forall v ensures NameCount(names, (names.Keys - rest) + {key}, v) ==
                         NameCount(names, names.Keys - rest, v) + (if value == v && v !in ReservedFields then 1 else 0)
        {
          NameCountAdd(names, names.Keys - rest, key, v);
        }
        assert names.Keys - (rest - {key}) == (names.Keys - rest) + {key};
        rest := rest - {key};
      }
      assert names.Keys - rest == names.Keys;
      return Success(countryLanguages);
    }

    /** getCountryLanguages as evidently intended: the language CODES stored for
        the country, each once. Every code it returns translates. */
    method GetCountryLanguageCodes(countryCode: string) returns (r: Result<seq<string>, Error>)
      requires Valid()
      ensures r.Failure? <==> Upper(countryCode) !in translationData
      ensures r.Failure? ==> r.error == NullPointer
      ensures r.Success? ==> Distinct(r.value)
      ensures r.Success? ==> forall lang :: lang in r.value <==> lang in translationData[Upper(countryCode)]
      ensures r.Success? ==> forall lang :: lang in r.value ==>
                Translate(countryCode, lang) == Success(Some(translationData[Upper(countryCode)][lang]))
    {
      var code := Upper(countryCode);
      if code !in translationData {
        return Failure(NullPointer);
      }
      var names := translationData[code];
      var keys := names.Keys - ReservedFields;
      forall lang | lang in names ensures lang in keys && Upper(lang) == lang {
        UpperFixedPoint(lang);
        if |lang| > 0 {
          assert !IsLower(lang[0]);
        }
      }
      var codes := SetToSeq(keys);
      return Success(codes);
    }

    /** getCountries (lines 78-80): the table's keys as a list. */
    method GetCountries() returns (countries: seq<string>)
      ensures Distinct(countries)
      ensures forall c :: c in countries <==> c in translationData
    {
      countries := SetToSeq(translationData.Keys);
    }

    /** translate (lines 83-86): both arguments are upper-cased; an unknown
        country is a null map (NullPointer), a language the country lacks is null (None). */
    function Translate(country: string, language: string): (r: Result<Option<string>, Error>)
      reads this
      ensures r.Failure? <==> Upper(country) !in translationData
      ensures r.Failure? ==> r.error == NullPointer
      ensures r.Success? ==> (r.value.Some? <==> Upper(language) in translationData[Upper(country)])
      ensures r.Success? && r.value.Some? ==> r.value.value == translationData[Upper(country)][Upper(language)]
    {
      var code := Upper(country);
      if code in translationData then Success(Get(translationData[code], Upper(language)))
      else Failure(NullPointer)
    }
  }

  /** Every table the constructor can build is in canonical (upper-case) form. */
  lemma TableIsWellFormed(records: seq<Record>, table: Table)
    requires HasCodes(records, |records|)
    requires IsTableOf(records, table)
    ensures WellFormed(table)
  {
    forall code | code in table
      ensures NoLower(code) && forall lang :: lang in table[code] ==> NoLower(lang)
    {
      var i :| 0 <= i < |records| && CodeOf(records[i]) == code;
      var last := LastWithCode(records, i);
      assert IsCountryData(records[last], table[code]);
    }
  }

  /** The index of the last record that shares record i's code. */
  ghost function LastWithCode(records: seq<Record>, i: nat): (last: nat)
    requires HasCodes(records, |records|) && i < |records|
    ensures i <= last < |records|
    ensures CodeOf(records[last]) == CodeOf(records[i])
    ensures IsLastWithCode(records, |records|, last)
    decreases |records| - i
  {
    if exists j :: i < j < |records| && CodeOf(records[j]) == CodeOf(records[i]) then
      var j :| i < j < |records| && CodeOf(records[j]) == CodeOf(records[i]);
      LastWithCode(records, j)
    else
      i
  }

  /** Line 56 as written. org.json's JSONObject.keySet() is a live view of the
      object, so the removals in getLanguageKeys (lines 89-92) delete the reserved
      fields from the record itself, and getString(alpha3) then always throws. */
  function ReadAlpha3AsWritten(country: Record): (r: Result<string, Error>)
    ensures r == Failure(KeyNotFound(Alpha3))
  {
    var afterRemoval := country - {"id"} - {"alpha2"} - {Alpha3};
    GetString(afterRemoval, Alpha3)
  }
}
