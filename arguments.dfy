/** The argument checks of the evaluation front end: masking secrets for logs,
    the field filter behind the `repr` of the argument records, the ranking-type
    switch, the `dataset:subsets` name syntax, the classification of a model name
    into an implementation, and the cross-record checks run once all three
    records are built. */
module Arguments {
  import opened Wrappers
  import opened Text

  // ---------------------------------------------------------------------
  // Model-name lists

  const OpenAICompletionModels: seq<string> := ["babbage-002", "davinci-002", "gpt-3.5-turbo-instruct"]
  const OpenAIChatModels: seq<string> := ["gpt-3.5-turbo", "gpt-3.5-turbo-1106", "gpt-3.5-turbo-16k", "gpt-4"]
  const OpenAIModels: seq<string> := OpenAICompletionModels + OpenAIChatModels
  const AnthropicModels: seq<string> := ["claude-2.1", "claude-instant-1.2"]

  // ---------------------------------------------------------------------
  // Redaction

  /** `"*" * n`. */
  function Stars(n: nat): (r: string)
    ensures |r| == n && forall i :: 0 <= i < n ==> r[i] == '*'
  {
    seq(n, _ => '*')
  }

  /** `get_redacted`: nothing for a missing secret; a secret of at most twelve
      characters becomes all stars; past that, only its first eight and last
      four characters stay and a star stands for each other one. */
  function Redacted(sensitive: Option<string>): (r: string)
    ensures sensitive.None? ==> r == ""
    ensures sensitive.Some? ==> |r| == |sensitive.value|
    ensures sensitive.Some? && |sensitive.value| <= 12 ==> forall i :: 0 <= i < |r| ==> r[i] == '*'
    ensures sensitive.Some? && |sensitive.value| > 12 ==>
      && r[..8] == sensitive.value[..8]
      && r[|r| - 4..] == sensitive.value[|r| - 4..]
      && forall i :: 8 <= i < |r| - 4 ==> r[i] == '*'
  {
    match sensitive
    case None => ""
    case Some(s) =>
      var middle := |s| - 12;
      if middle <= 0 then Stars(|s|) else s[..8] + Stars(middle) + s[|s| - 4..]
  }

  /** Two secrets of one length that agree on what stays visible redact alike:
      nothing else of a secret reaches the log. */
  lemma RedactedHides(a: string, b: string)
    requires |a| == |b|
    requires |a| > 12 ==> a[..8] == b[..8] && a[|a| - 4..] == b[|b| - 4..]
    ensures Redacted(Some(a)) == Redacted(Some(b))
  {
    var ra, rb := Redacted(Some(a)), Redacted(Some(b));
    forall i | 0 <= i < |ra|
      ensures ra[i] == rb[i]
    {
      if |a| > 12 {
        if i < 8 {
          assert ra[i] == ra[..8][i] && rb[i] == rb[..8][i];
        } else if i >= |a| - 4 {
          assert ra[i] == ra[|ra| - 4..][i - (|ra| - 4)];
          assert rb[i] == rb[|rb| - 4..][i - (|rb| - 4)];
        }
      }
    }
  }

  /** Redacting a redacted secret changes nothing. */
  lemma RedactedTwice(s: string)
    ensures Redacted(Some(Redacted(Some(s)))) == Redacted(Some(s))
  {
    var r := Redacted(Some(s));
    var rr := Redacted(Some(r));
    forall i | 0 <= i < |rr|
      ensures rr[i] == r[i]
    {
      if |s| > 12 {
        if i < 8 {
          assert rr[i] == rr[..8][i] && r[i] == r[..8][i];
        } else if i >= |s| - 4 {
          assert rr[i] == rr[|rr| - 4..][i - (|rr| - 4)];
          assert r[i] == r[|r| - 4..][i - (|r| - 4)];
        }
      }
    }
  }

  // ---------------------------------------------------------------------
  // The field filter of `repr`

  /** A field value of an argument record, as far as the filter looks at it. */
  datatype Value = Null | Str(s: string) | Int(i: int) | Bool(b: bool)

  /** The fields of a record in declaration order, as its `__dict__` holds them. */
  type Fields = seq<(string, Value)>

  /** The redacted fields hold text, or nothing. */
  predicate RedactsText(fields: Fields, redact: set<string>)
  {
    forall i :: 0 <= i < |fields| && fields[i].0 in redact ==> fields[i].1.Null? || fields[i].1.Str?
  }

  /** Whether `filter_none_repr` shows a field: it is set and not private. */
  predicate Shown(f: (string, Value))
  {
    !f.1.Null? && !StartsWith(f.0, "_")
  }

  /** What `filter_none_repr` shows of a shown field. */
  function ShownValue(f: (string, Value), redact: set<string>): Value
    requires f.0 in redact ==> f.1.Null? || f.1.Str?
  {
    if f.0 in redact && f.1.Str? then Str(Redacted(Some(f.1.s))) else f.1
  }

  /** The fields `filter_none_repr` shows, in order, with their shown values. */
  function Kept(fields: Fields, redact: set<string>): (kept: Fields)
    requires RedactsText(fields, redact)
    ensures |kept| <= |fields|
  {
    if fields == [] then []
    else
      var rest := Kept(fields[1..], redact);
      if Shown(fields[0]) then [(fields[0].0, ShownValue(fields[0], redact))] + rest else rest
  }

  /** Filtering a record in two parts is filtering each part: the order of the
      fields is kept. */
  lemma {:induction false} KeptAppend(a: Fields, b: Fields, redact: set<string>)
    requires RedactsText(a, redact) && RedactsText(b, redact)
    ensures RedactsText(a + b, redact)
    ensures Kept(a + b, redact) == Kept(a, redact) + Kept(b, redact)
    decreases |a|
  {
    forall i | 0 <= i < |a + b| && (a + b)[i].0 in redact
      ensures (a + b)[i].1.Null? || (a + b)[i].1.Str?
    {
      if i >= |a| {
        assert (a + b)[i] == b[i - |a|];
      }
    }
    if a == [] {
      assert a + b == b;
    } else {
      assert (a + b)[0] == a[0];
      assert (a + b)[1..] == a[1..] + b;
      KeptAppend(a[1..], b, redact);
    }
  }

  /** A field appears in the filtered record exactly when it is shown, with its
      shown value, so a redacted field never shows its secret. */
  lemma {:induction false} KeptFields(fields: Fields, redact: set<string>, key: string, v: Value)
    requires RedactsText(fields, redact)
    ensures (key, v) in Kept(fields, redact) <==>
      exists i :: 0 <= i < |fields| && fields[i].0 == key && Shown(fields[i]) && v == ShownValue(fields[i], redact)
    decreases |fields|
  {
    if fields != [] {
      KeptFields(fields[1..], redact, key, v);
      if (key, v) in Kept(fields[1..], redact) {
        var i :| 0 <= i < |fields[1..]| && fields[1..][i].0 == key && Shown(fields[1..][i]) && v == ShownValue(fields[1..][i], redact);
        assert fields[i + 1] == fields[1..][i];
      }
      if exists i :: 0 <= i < |fields| && fields[i].0 == key && Shown(fields[i]) && v == ShownValue(fields[i], redact) {
        var i :| 0 <= i < |fields| && fields[i].0 == key && Shown(fields[i]) && v == ShownValue(fields[i], redact);
        if i > 0 {
          assert fields[1..][i - 1] == fields[i];
        }
      }
    }
  }

  /** The loop of `filter_none_repr` that fills `kwargs`. */
  method FilterNoneRepr(fields: Fields, redact: set<string>) returns (kwargs: Fields)
    requires RedactsText(fields, redact)
    ensures kwargs == Kept(fields, redact)
  {
    kwargs := [];
    for i := 0 to |fields|
      invariant RedactsText(fields[..i], redact)
      invariant kwargs == Kept(fields[..i], redact)
    {
      var (key, value) := fields[i];
      assert fields[..i + 1] == fields[..i] + [fields[i]];
      KeptAppend(fields[..i], [fields[i]], redact);
      if !value.Null? && !StartsWith(key, "_") {
        kwargs := kwargs + [(key, if key in redact then Str(Redacted(Some(value.s))) else value)];
      }
    }
    assert fields[..|fields|] == fields;
  }

  // ---------------------------------------------------------------------
  // Dataset arguments

  /** The characters `rstrip("no_option")` removes: a set, not a suffix. */
  const NoOptionChars: set<char> := {'n', 'o', '_', 'p', 't', 'i'}

  /** The getter `ranking_with_options`. */
  predicate WithOptions(rankingType: string)
  {
    !EndsWith(rankingType, "no_option")
  }

  /** The ranking type the setter `ranking_with_options` leaves: turning options
      off selects `ppl_no_option`; turning them on strips trailing characters of
      `no_option` off the current type. Either way the getter then reads back the
      value set, and turning options on only shortens the type. */
  function RankingTypeFor(current: string, value: bool): (r: string)
    ensures WithOptions(r) == value
    ensures value ==> |r| <= |current|
    ensures value ==> r == current[..|r|] && forall i :: |r| <= i < |current| ==> current[i] in NoOptionChars
    ensures value && |r| > 0 ==> r[|r| - 1] !in NoOptionChars
  {
    if value then
      RStripDrops(current, NoOptionChars);
      RStrip(current, NoOptionChars)
    else "ppl_no_option"
  }

  /** The setter on the three ranking types the option accepts. */
  lemma RankingTypeExamples()
    ensures RankingTypeFor("ppl_no_option", true) == "ppl"
    ensures RankingTypeFor("ppl", true) == "ppl"
    ensures RankingTypeFor("prob", true) == "prob"
    ensures RankingTypeFor("prob", false) == "ppl_no_option"
  {
    assert "ppl_no_option" == "ppl" + "_no_option";
    RStripThrough("ppl", "_no_option", NoOptionChars);
  }

  /** Setting the option on twice is setting it on once. */
  lemma {:induction false} RankingTypeOnTwice(current: string)
    ensures RankingTypeFor(RankingTypeFor(current, true), true) == RankingTypeFor(current, true)
  {
    var r := RankingTypeFor(current, true);
    RStripDrops(current, NoOptionChars);
    assert |r| > 0 ==> r[|r| - 1] !in NoOptionChars;
    assert RStrip(r, NoOptionChars) == r;
  }

  /** A `dataset_name` once split: unchanged, or a name and its subsets. */
  datatype DatasetName = Whole(name: string) | WithSubsets(name: string, subsets: set<string>)

  /** What unpacking three or more pieces into two names raises, in the words of
      Python 3.11 and earlier (Python 3.12 adds the count it got). */
  const TooManyValues: string := "too many values to unpack (expected 2)"

  /** `set(subset_names.split(","))`. */
  function SubsetNames(subsets: string): set<string>
  {
    set p | p in Split(subsets, ",")
  }

  /** The name split of `DatasetArguments.__post_init__`. */
  function ParseDatasetName(datasetName: string): Result<DatasetName, string>
  {
    if ':' !in datasetName then Success(Whole(datasetName))
    else
      var parts := Split(datasetName, ":");
      if |parts| == 2 then Success(WithSubsets(parts[0], SubsetNames(parts[1])))
      else Failure(TooManyValues)
  }

  /** A name with one colon is the text before it, with the comma-separated text
      after it as its subsets. */
  lemma OneColon(name: string, subsets: string)
    requires ':' !in name && ':' !in subsets
    ensures ParseDatasetName(name + ":" + subsets) == Success(WithSubsets(name, SubsetNames(subsets)))
  {
    var s := name + ":" + subsets;
    assert s[|name|] == ':';
    assert ":" == [':'];
    SplitCharAppend(name, subsets, ':');
    SplitCharAbsent(name, ':');
    SplitCharAbsent(subsets, ':');
  }

  /** A name with two colons or more is refused. */
  lemma TwoColons(a: string, b: string, c: string)
    ensures ParseDatasetName(a + ":" + b + ":" + c) == Failure(TooManyValues)
  {
    var s := a + ":" + b + ":" + c;
    assert s[|a|] == ':';
    assert s == a + [':'] + (b + [':'] + c);
    SplitCharAppend(a, b + [':'] + c, ':');
    SplitCharAppend(b, c, ':');
  }

  /** Two colons somewhere in the text. */
  predicate HasTwoColons(s: string)
  {
    exists i, j :: 0 <= i < j < |s| && s[i] == ':' && s[j] == ':'
  }

  /** Past a first colon at `k` there is another: the split fails. */
  lemma ColonAgain(s: string, k: nat, j: nat)
    requires k < |s| && s[k] == ':' && ':' !in s[..k]
    requires j < |s[k + 1..]| && s[k + 1..][j] == ':'
    ensures ParseDatasetName(s).Failure? && HasTwoColons(s)
  {
    var name, rest := s[..k], s[k + 1..];
    assert s == name + ":" + rest[..j] + ":" + rest[j + 1..];
    TwoColons(name, rest[..j], rest[j + 1..]);
    assert s[k] == ':' && s[k + 1 + j] == ':';
  }

  /** A first colon at `k` and none after it: the split cuts at `k`. */
  lemma OnlyColon(s: string, k: nat)
    requires k < |s| && s[k] == ':' && ':' !in s[..k] && ':' !in s[k + 1..]
    ensures ParseDatasetName(s) == Success(WithSubsets(s[..k], SubsetNames(s[k + 1..])))
    ensures !HasTwoColons(s)
  {
    var name, rest := s[..k], s[k + 1..];
    assert s == name + ":" + rest;
    OneColon(name, rest);
    forall i | 0 <= i < |s| && i != k
      ensures s[i] != ':'
    {
      if i < k {
        assert s[i] == name[i];
      } else {
        assert s[i] == rest[i - k - 1];
      }
    }
  }

  /** Which way the split goes: without a colon the name stays as it is; with
      exactly one, at `k`, it is cut there; with more it fails. */
  lemma DatasetNameCases(s: string)
    ensures ParseDatasetName(s) == Success(Whole(s)) <==> ':' !in s
    ensures ParseDatasetName(s).Failure? <==> HasTwoColons(s)
    ensures forall k :: 0 <= k < |s| && s[k] == ':' && !HasTwoColons(s) ==>
      ParseDatasetName(s) == Success(WithSubsets(s[..k], SubsetNames(s[k + 1..])))
  {
    if ':' in s {
      var k := IndexOf(s, ':').value;
      IndexOfIs(s, ':', k);
      if ':' in s[k + 1..] {
        var j :| 0 <= j < |s[k + 1..]| && s[k + 1..][j] == ':';
        ColonAgain(s, k, j);
      } else {
        OnlyColon(s, k);
      }
    }
  }

  /** The subsets joined by commas are what the split yields. */
  lemma SubsetsOfJoin(parts: seq<string>)
    requires |parts| > 0 && forall i :: 0 <= i < |parts| ==> ',' !in parts[i]
    ensures SubsetNames(Join(parts, ",")) == set p | p in parts
  {
    SplitOfJoin(parts, ',');
  }

  /** A name, a colon and subsets joined by commas split back into the name and
      those subsets. */
  lemma OneColonJoin(name: string, parts: seq<string>)
    requires ':' !in name && |parts| > 0
    requires forall i :: 0 <= i < |parts| ==> ':' !in parts[i] && ',' !in parts[i]
    ensures ParseDatasetName(name + ":" + Join(parts, ",")) == Success(WithSubsets(name, set p | p in parts))
  {
    SubsetsOfJoin(parts);
    JoinWithout(parts, ",", ':');
    OneColon(name, Join(parts, ","));
  }

  /** A name with two comma-separated subsets. */
  lemma TwoSubsets(name: string, a: string, b: string)
    requires ':' !in name && ':' !in a && ',' !in a && ':' !in b && ',' !in b
    ensures ParseDatasetName(name + ":" + a + "," + b) == Success(WithSubsets(name, {a, b}))
  {
    var parts := [a, b];
    assert Join(parts, ",") == a + "," + b;
    assert name + ":" + a + "," + b == name + ":" + Join(parts, ",");
    OneColonJoin(name, parts);
    assert (set p | p in parts) == {a, b};
  }

  /** `wmt16:en-ro,en-fr` names `wmt16` with the subsets `en-ro` and `en-fr`. */
  lemma SubsetsExample(t: string)
    requires t == "wmt16:en-ro,en-fr"
    ensures ParseDatasetName(t) == Success(WithSubsets("wmt16", {"en-ro", "en-fr"}))
  {
    assert t == "wmt16" + ":" + "en-ro" + "," + "en-fr";
    TwoSubsets("wmt16", "en-ro", "en-fr");
  }

  /** The dataset arguments that the modelled operations read or write. */
  class DatasetArguments {
    var datasetName: string
    var subsetNames: set<string>
    var rankingType: string
    var batchSize: int

    /** The dataclass initialiser, before `__post_init__`. */
    constructor (datasetName: string, rankingType: string, batchSize: int)
      ensures this.datasetName == datasetName && this.rankingType == rankingType
      ensures this.batchSize == batchSize && subsetNames == {}
    {
      this.datasetName := datasetName;
      this.rankingType := rankingType;
      this.batchSize := batchSize;
      subsetNames := {};
    }

    /** The getter `ranking_with_options`. */
    function RankingWithOptions(): bool
      reads this
    {
      WithOptions(rankingType)
    }

    /** The setter `ranking_with_options`: only the ranking type changes, and the
        getter reads back the value set. */
    method SetRankingWithOptions(value: bool)
      modifies this
      ensures rankingType == RankingTypeFor(old(rankingType), value)
      ensures RankingWithOptions() == value
      ensures datasetName == old(datasetName) && subsetNames == old(subsetNames)
      ensures batchSize == old(batchSize)
    {
      if value {
        rankingType := RStrip(rankingType, NoOptionChars);
      } else {
        rankingType := "ppl_no_option";
      }
    }

    /** The name split of `__post_init__`: a name with subsets is cut in two; a
        name with more than one colon raises before anything is assigned. */
    method PostInit() returns (outcome: Outcome<string>)
      modifies this
      ensures ParseDatasetName(old(datasetName)).Failure? ==>
        outcome == Fail(TooManyValues) && datasetName == old(datasetName) && subsetNames == old(subsetNames)
      ensures ParseDatasetName(old(datasetName)).Success? ==> outcome == Pass
      ensures ParseDatasetName(old(datasetName)) == Success(Whole(old(datasetName))) ==>
        datasetName == old(datasetName) && subsetNames == old(subsetNames)
      ensures ParseDatasetName(old(datasetName)).Success? && ParseDatasetName(old(datasetName)).value.WithSubsets? ==>
        datasetName == ParseDatasetName(old(datasetName)).value.name &&
        subsetNames == ParseDatasetName(old(datasetName)).value.subsets
      ensures rankingType == old(rankingType) && batchSize == old(batchSize)
    {
      if ':' in datasetName {
        var parts := Split(datasetName, ":");
        if |parts| != 2 {
          return Fail(TooManyValues);
        }
        datasetName := parts[0];
        subsetNames := SubsetNames(parts[1]);
      }
      return Pass;
    }
  }

  // ---------------------------------------------------------------------
  // Model arguments

  /** The implementation behind a model. */
  datatype Impl = OpenAI | Anthropic | HuggingFace

  /** The implementation `ModelArguments.__post_init__` picks for a model name:
      by the lowercased name, OpenAI's list first, then Anthropic's, and the
      Hugging Face loader for every other name. */
  function Classify(modelNameOrPath: string): (impl: Impl)
    ensures impl == OpenAI <==> Lower(modelNameOrPath) in OpenAIModels
    ensures impl == Anthropic <==> Lower(modelNameOrPath) in AnthropicModels
    ensures impl == HuggingFace <==> Lower(modelNameOrPath) !in OpenAIModels + AnthropicModels
  {
    var name := Lower(modelNameOrPath);
    if name in OpenAIModels then OpenAI
    else if name in AnthropicModels then Anthropic
    else HuggingFace
  }

  /** The classification does not see letter case. */
  lemma ClassifyIgnoresCase(modelNameOrPath: string)
    ensures Classify(Lower(modelNameOrPath)) == Classify(modelNameOrPath)
  {
    LowerTwice(modelNameOrPath);
  }

  /** Every chat model is an OpenAI model. */
  lemma ChatModelsAreOpenAI(modelNameOrPath: string)
    requires Lower(modelNameOrPath) in OpenAIChatModels
    ensures Classify(modelNameOrPath) == OpenAI
  {
  }

  /** The arguments only one implementation uses, as `_model_specific_arguments`
      lists them; OpenAI has none of its own. */
  const ModelSpecificArguments: seq<(Impl, set<string>)> :=
    [(Anthropic, {"anthropic_api_key"}),
     (HuggingFace, {"device_map", "vllm", "flash_attention", "tokenizer_name_or_path"})]

  /** The model arguments masked in the `repr`. */
  const ModelRedact: set<string> := {"openai_api_key", "anthropic_api_key"}

  /** `_model_specific_arguments.get(impl, set())` over a table. */
  function SpecificIn(table: seq<(Impl, set<string>)>, impl: Impl): set<string>
  {
    if table == [] then {} else if table[0].0 == impl then table[0].1 else SpecificIn(table[1..], impl)
  }

  /** The arguments of the table's other implementations. */
  function OthersIn(table: seq<(Impl, set<string>)>, impl: Impl): set<string>
  {
    if table == [] then {}
    else (if table[0].0 != impl then table[0].1 else {}) + OthersIn(table[1..], impl)
  }

  /** The arguments `check_args` clears for a model of implementation `impl`. */
  function IgnoredArguments(impl: Impl): set<string>
  {
    OthersIn(ModelSpecificArguments, impl) - SpecificIn(ModelSpecificArguments, impl)
  }

  /** No implementation appears twice in the table. */
  predicate DistinctImpls(table: seq<(Impl, set<string>)>)
  {
    forall i, j :: 0 <= i < j < |table| ==> table[i].0 != table[j].0
  }

  /** Over a table without repeats, an argument lies with the others exactly
      when it lies with some other implementation. */
  lemma {:induction false} OthersInIs(table: seq<(Impl, set<string>)>, impl: Impl, arg: string)
    requires DistinctImpls(table)
    ensures arg in OthersIn(table, impl) <==> exists other :: other != impl && arg in SpecificIn(table, other)
    decreases |table|
  {
    if table != [] {
      var tail := table[1..];
      assert DistinctImpls(tail) by {
        forall i, j | 0 <= i < j < |tail| ensures tail[i].0 != tail[j].0 {
          assert tail[i] == table[i + 1] && tail[j] == table[j + 1];
        }
      }
      OthersInIs(tail, impl, arg);
      var x := table[0];
      assert forall i :: 0 <= i < |tail| ==> tail[i].0 != x.0 by {
        forall i | 0 <= i < |tail| ensures tail[i].0 != x.0 {
          assert tail[i] == table[i + 1];
        }
      }
      NotInTable(tail, x.0);
      assert OthersIn(table, impl) == (if x.0 != impl then x.1 else {}) + OthersIn(tail, impl);
      if arg in OthersIn(table, impl) {
        if x.0 != impl && arg in x.1 {
          assert arg in SpecificIn(table, x.0);
        } else {
          var other :| other != impl && arg in SpecificIn(tail, other);
          assert other != x.0;
          assert arg in SpecificIn(table, other);
        }
      }
      if exists other :: other != impl && arg in SpecificIn(table, other) {
        var other :| other != impl && arg in SpecificIn(table, other);
        if other != x.0 {
          assert arg in SpecificIn(tail, other);
          assert exists o :: o != impl && arg in SpecificIn(tail, o);
          assert arg in OthersIn(tail, impl);
          assert arg in OthersIn(table, impl);
        } else {
          assert SpecificIn(table, x.0) == x.1;
          assert x.0 != impl && arg in x.1;
          assert OthersIn(table, impl) == x.1 + OthersIn(tail, impl);
          assert arg in OthersIn(table, impl);
        }
      }
    }
  }

  /** An implementation missing from a table has nothing in it. */
  lemma {:induction false} NotInTable(table: seq<(Impl, set<string>)>, impl: Impl)
    requires forall i :: 0 <= i < |table| ==> table[i].0 != impl
    ensures SpecificIn(table, impl) == {}
    decreases |table|
  {
    if table != [] {
      NotInTable(table[1..], impl);
    }
  }

  /** `check_args` clears an argument exactly when another implementation uses it
      and the model's own implementation does not, so a model's own arguments are
      never cleared. */
  lemma IgnoredIs(impl: Impl, arg: string)
    ensures arg in IgnoredArguments(impl) <==>
      (exists other :: other != impl && arg in SpecificIn(ModelSpecificArguments, other)) &&
      arg !in SpecificIn(ModelSpecificArguments, impl)
  {
    OthersInIs(ModelSpecificArguments, impl, arg);
  }

  /** What each implementation loses. */
  lemma IgnoredByImpl()
    ensures IgnoredArguments(OpenAI) ==
      {"anthropic_api_key", "device_map", "vllm", "flash_attention", "tokenizer_name_or_path"}
    ensures IgnoredArguments(Anthropic) == {"device_map", "vllm", "flash_attention", "tokenizer_name_or_path"}
    ensures IgnoredArguments(HuggingFace) == {"anthropic_api_key"}
  {
  }

  /** The loop of `check_args` that gathers the arguments to clear. */
  method GatherIgnored(impl: Impl) returns (argsIgnored: set<string>)
    ensures argsIgnored == IgnoredArguments(impl)
  {
    argsIgnored := {};
    var table := ModelSpecificArguments;
    for i := 0 to |table|
      invariant argsIgnored == OthersIn(table, impl) - OthersIn(table[i..], impl)
      invariant OthersIn(table, impl) == argsIgnored + OthersIn(table[i..], impl)
    {
      assert table[i..][1..] == table[i + 1..];
      if table[i].0 != impl {
        argsIgnored := argsIgnored + table[i].1;
      }
    }
    argsIgnored := argsIgnored - SpecificIn(table, impl);
  }

  /** An optional field after `check_args` has cleared the arguments in `ignored`. */
  function Cleared<T>(name: string, ignored: set<string>, v: Option<T>): Option<T>
  {
    if name in ignored then None else v
  }

  /** A key from the environment when none was passed. */
  function KeyFrom(passed: Option<string>, env: map<string, string>, variable: string): (key: Option<string>)
    ensures passed.Some? ==> key == passed
    ensures passed.None? ==> (key.Some? <==> variable in env)
    ensures key.Some? && passed.None? ==> key.value == env[variable]
  {
    if variable in env && passed.None? then Some(env[variable]) else passed
  }

  /** The model arguments that the modelled operations read or write. Every
      argument `check_args` may clear is optional. */
  class ModelArguments {
    var modelNameOrPath: string
    var deviceMap: Option<string>
    var vllm: Option<bool>
    var flashAttention: Option<bool>
    var openaiApiKey: Option<string>
    var anthropicApiKey: Option<string>
    var tokenizerNameOrPath: Option<string>
    var seed: Option<int>
    /** `_model_impl`, present once `__post_init__` has run. */
    var modelImpl: Option<Impl>

    /** The dataclass initialiser, before `__post_init__`. */
    constructor (modelNameOrPath: string, deviceMap: Option<string>, vllm: Option<bool>,
                 flashAttention: Option<bool>, openaiApiKey: Option<string>,
                 anthropicApiKey: Option<string>, tokenizerNameOrPath: Option<string>)
      ensures this.modelNameOrPath == modelNameOrPath && this.deviceMap == deviceMap
      ensures this.vllm == vllm && this.flashAttention == flashAttention
      ensures this.openaiApiKey == openaiApiKey && this.anthropicApiKey == anthropicApiKey
      ensures this.tokenizerNameOrPath == tokenizerNameOrPath
      ensures seed == None && modelImpl == None
    {
      this.modelNameOrPath := modelNameOrPath;
      this.deviceMap := deviceMap;
      this.vllm := vllm;
      this.flashAttention := flashAttention;
      this.openaiApiKey := openaiApiKey;
      this.anthropicApiKey := anthropicApiKey;
      this.tokenizerNameOrPath := tokenizerNameOrPath;
      seed := None;
      modelImpl := None;
    }

    /** `__post_init__` with the environment passed in: classify the model, take
        missing keys from the environment, raise when an API model has no key,
        then default the tokenizer to the model and turn `vllm` off for API
        models. A raise leaves the fields as assigned up to it. */
    method PostInit(env: map<string, string>) returns (outcome: Outcome<string>)
      modifies this
      ensures modelImpl == Some(Classify(modelNameOrPath))
      ensures modelNameOrPath == old(modelNameOrPath) && seed == old(seed)
      ensures deviceMap == old(deviceMap) && flashAttention == old(flashAttention)
      ensures openaiApiKey == KeyFrom(old(openaiApiKey), env, "OPENAI_API_KEY")
      ensures outcome.Fail? <==>
        (modelImpl == Some(OpenAI) && openaiApiKey.None?) ||
        (modelImpl == Some(Anthropic) && KeyFrom(old(anthropicApiKey), env, "ANTHROPIC_API_KEY").None?)
      ensures outcome.Fail? ==> tokenizerNameOrPath == old(tokenizerNameOrPath) && vllm == old(vllm)
      ensures outcome.Fail? ==> anthropicApiKey == old(anthropicApiKey)
      ensures outcome.Fail? ==>
        outcome.error == (if modelImpl == Some(OpenAI) then OpenAIKeyRequired else AnthropicKeyRequired)
      ensures outcome.Pass? ==> anthropicApiKey == KeyFrom(old(anthropicApiKey), env, "ANTHROPIC_API_KEY")
      ensures outcome.Pass? ==>
        tokenizerNameOrPath == (if old(tokenizerNameOrPath).None? then Some(modelNameOrPath) else old(tokenizerNameOrPath))
      ensures outcome.Pass? ==> vllm == (if modelImpl == Some(HuggingFace) then old(vllm) else Some(false))
    {
      var impl := Classify(modelNameOrPath);
      modelImpl := Some(impl);
      openaiApiKey := KeyFrom(openaiApiKey, env, "OPENAI_API_KEY");
      if impl == OpenAI && openaiApiKey.None? {
        return Fail(OpenAIKeyRequired);
      }
      anthropicApiKey := KeyFrom(anthropicApiKey, env, "ANTHROPIC_API_KEY");
      if impl == Anthropic && anthropicApiKey.None? {
        return Fail(AnthropicKeyRequired);
      }
      if tokenizerNameOrPath.None? {
        tokenizerNameOrPath := Some(modelNameOrPath);
      }
      if impl == OpenAI || impl == Anthropic {
        vllm := Some(false);
      }
      return Pass;
    }

    /** `setattr(model_args, arg, None)` for an argument `check_args` may clear;
        any other name is left alone. */
    method ClearArgument(arg: string)
      modifies this
      ensures deviceMap == Cleared("device_map", {arg}, old(deviceMap))
      ensures vllm == Cleared("vllm", {arg}, old(vllm))
      ensures flashAttention == Cleared("flash_attention", {arg}, old(flashAttention))
      ensures anthropicApiKey == Cleared("anthropic_api_key", {arg}, old(anthropicApiKey))
      ensures tokenizerNameOrPath == Cleared("tokenizer_name_or_path", {arg}, old(tokenizerNameOrPath))
      ensures modelNameOrPath == old(modelNameOrPath) && openaiApiKey == old(openaiApiKey)
      ensures seed == old(seed) && modelImpl == old(modelImpl)
    {
      if arg == "device_map" {
        deviceMap := None;
      } else if arg == "vllm" {
        vllm := None;
      } else if arg == "flash_attention" {
        flashAttention := None;
      } else if arg == "anthropic_api_key" {
        anthropicApiKey := None;
      } else if arg == "tokenizer_name_or_path" {
        tokenizerNameOrPath := None;
      }
    }

    /** The clearing loop of `check_args`: every argument in `ignored` becomes `None`. */
    method ClearArguments(ignored: set<string>)
      modifies this
      ensures deviceMap == Cleared("device_map", ignored, old(deviceMap))
      ensures vllm == Cleared("vllm", ignored, old(vllm))
      ensures flashAttention == Cleared("flash_attention", ignored, old(flashAttention))
      ensures anthropicApiKey == Cleared("anthropic_api_key", ignored, old(anthropicApiKey))
      ensures tokenizerNameOrPath == Cleared("tokenizer_name_or_path", ignored, old(tokenizerNameOrPath))
      ensures modelNameOrPath == old(modelNameOrPath) && openaiApiKey == old(openaiApiKey)
      ensures seed == old(seed) && modelImpl == old(modelImpl)
    {
      var remaining := ignored;
      while remaining != {}
        invariant remaining <= ignored
        invariant modelNameOrPath == old(modelNameOrPath) && openaiApiKey == old(openaiApiKey)
        invariant seed == old(seed) && modelImpl == old(modelImpl)
        invariant deviceMap == Cleared("device_map", ignored - remaining, old(deviceMap))
        invariant vllm == Cleared("vllm", ignored - remaining, old(vllm))
        invariant flashAttention == Cleared("flash_attention", ignored - remaining, old(flashAttention))
        invariant anthropicApiKey == Cleared("anthropic_api_key", ignored - remaining, old(anthropicApiKey))
        invariant tokenizerNameOrPath == Cleared("tokenizer_name_or_path", ignored - remaining, old(tokenizerNameOrPath))
        decreases remaining
      {
        var arg :| arg in remaining;
        ClearArgument(arg);
        remaining := remaining - {arg};
      }
    }
  }

  const OpenAIKeyRequired: string :=
    "OpenAI API key is required. Please set it by passing a `--openai_api_key` or through environment variable `OPENAI_API_KEY`."
  const AnthropicKeyRequired: string :=
    "Anthropic API key is required. Please set it by passing a `--anthropic_api_key` or through environment variable `ANTHROPIC_API_KEY`."
  const GPTEvalKeyRequired: string :=
    "OpenAI API key is required for GPTEval metrics. Please set it by passing a `--openai_api_key` or through environment variable `OPENAI_API_KEY`."

  /** Whether a model is one that takes a single request at a time: an OpenAI
      chat model or an Anthropic model. */
  predicate SingleRequest(modelNameOrPath: string)
  {
    Lower(modelNameOrPath) in OpenAIChatModels || Lower(modelNameOrPath) in AnthropicModels
  }

  /** The batch size `check_args` leaves: one for a model taking single requests
      asked for more, the size asked for otherwise. */
  function BatchSizeFor(modelNameOrPath: string, batchSize: int): (r: int)
    ensures SingleRequest(modelNameOrPath) && batchSize > 1 ==> r == 1
    ensures !(SingleRequest(modelNameOrPath) && batchSize > 1) ==> r == batchSize
  {
    var b := if Lower(modelNameOrPath) in OpenAIChatModels && batchSize > 1 then 1 else batchSize;
    if Lower(modelNameOrPath) in AnthropicModels && b > 1 then 1 else b
  }

  /** A clamped batch size is at most the one asked for, and only a model taking
      single requests changes it. */
  lemma BatchSizeBounds(modelNameOrPath: string, batchSize: int)
    ensures BatchSizeFor(modelNameOrPath, batchSize) <= batchSize
    ensures BatchSizeFor(modelNameOrPath, batchSize) != batchSize ==>
      SingleRequest(modelNameOrPath) && Classify(modelNameOrPath) != HuggingFace
  {
  }

  /** The evaluation arguments `check_args` reads. */
  datatype EvaluationArguments = EvaluationArguments(seed: int)

  /** `check_args`: copy the seed, clamp the batch size, insist on an OpenAI key
      for `vicuna_bench`, then clear the arguments of other implementations that
      the model's own does not use. */
  method CheckArgs(modelArgs: ModelArguments, datasetArgs: DatasetArguments, evaluationArgs: EvaluationArguments)
    returns (outcome: Outcome<string>)
    requires modelArgs.modelImpl.Some?
    modifies modelArgs, datasetArgs
    ensures modelArgs.seed == Some(evaluationArgs.seed)
    ensures datasetArgs.batchSize == BatchSizeFor(modelArgs.modelNameOrPath, old(datasetArgs.batchSize))
    ensures datasetArgs.datasetName == old(datasetArgs.datasetName)
    ensures datasetArgs.subsetNames == old(datasetArgs.subsetNames)
    ensures datasetArgs.rankingType == old(datasetArgs.rankingType)
    ensures modelArgs.modelNameOrPath == old(modelArgs.modelNameOrPath)
    ensures modelArgs.openaiApiKey == old(modelArgs.openaiApiKey)
    ensures modelArgs.modelImpl == old(modelArgs.modelImpl)
    ensures outcome.Fail? <==> datasetArgs.datasetName == "vicuna_bench" && modelArgs.openaiApiKey.None?
    ensures outcome.Fail? ==> outcome.error == GPTEvalKeyRequired
    ensures var ignored := if outcome.Pass? then IgnoredArguments(modelArgs.modelImpl.value) else {};
      && modelArgs.deviceMap == Cleared("device_map", ignored, old(modelArgs.deviceMap))
      && modelArgs.vllm == Cleared("vllm", ignored, old(modelArgs.vllm))
      && modelArgs.flashAttention == Cleared("flash_attention", ignored, old(modelArgs.flashAttention))
      && modelArgs.anthropicApiKey == Cleared("anthropic_api_key", ignored, old(modelArgs.anthropicApiKey))
      && modelArgs.tokenizerNameOrPath == Cleared("tokenizer_name_or_path", ignored, old(modelArgs.tokenizerNameOrPath))
  {
    modelArgs.seed := Some(evaluationArgs.seed);
    var name := Lower(modelArgs.modelNameOrPath);
    if name in OpenAIChatModels && datasetArgs.batchSize > 1 {
      datasetArgs.batchSize := 1;
    }
    if name in AnthropicModels && datasetArgs.batchSize > 1 {
      datasetArgs.batchSize := 1;
    }
    if datasetArgs.datasetName == "vicuna_bench" && modelArgs.openaiApiKey.None? {
      return Fail(GPTEvalKeyRequired);
    }
    var argsIgnored := GatherIgnored(modelArgs.modelImpl.value);
    modelArgs.ClearArguments(argsIgnored);
    return Pass;
  }
}
