/** `ensure_definition` and `pull_definitions` (analysismgr.py): turning INI sections into
    definition records, and stamping stored records with their kind. The configuration
    parser and the document store are abstracted: a section is its name with its
    `(option, raw value)` pairs in order, and the store's cursor is a sequence of records. */
module Loader {
  import opened PyStr
  import opened Records

  /** The option name `name` could not be read because it is empty (Python raises an
      IndexError at `name[0]`); `position` is its index among the section's options. */
  datatype LoadError = EmptyOptionName(section: string, position: nat)

  /** One INI section: its name and its options with their raw values, in order. */
  type Section = (string, seq<(string, string)>)

  /** `map(lambda y: y.strip(), raw.split(", "))`: the stripped pieces of a raw value, one per
      piece of the split. There is always at least one, so `value[0]` is always defined. */
  function Pieces(raw: string): (r: seq<string>)
    ensures |r| == |Split(raw)| >= 1
  {
    seq(|Split(raw)|, k requires 0 <= k < |Split(raw)| => Strip(Split(raw)[k]))
  }

  /** Every piece is the corresponding piece of the split with its surrounding whitespace cut
      off, so no piece starts or ends with whitespace. */
  lemma PiecesStripped(raw: string)
    ensures forall k :: 0 <= k < |Pieces(raw)| ==> Pieces(raw)[k] == Strip(Split(raw)[k])
    ensures forall k :: 0 <= k < |Pieces(raw)| ==> Stripped(Pieces(raw)[k])
  {
  }

  /** The pieces are those of the value read as separator-free parts joined by ", ",
      each stripped, in the same order: a definition independent of how `Split` scans. */
  lemma {:induction false} PiecesOfJoin(parts: seq<string>)
    requires |parts| >= 1
    requires forall k :: 0 <= k < |parts| ==> NoSep(parts[k])
    ensures |Pieces(Join(parts))| == |parts|
    ensures forall k :: 0 <= k < |parts| ==> Pieces(Join(parts))[k] == Strip(parts[k])
  {
    JoinSplit(parts);
    PiecesStripped(Join(parts));
  }

  /** An option named `~key` is stored under `key`. */
  predicate IsScalarOption(name: string) {
    |name| > 0 && name[0] == '~'
  }

  function OptionKey(name: string): string {
    if IsScalarOption(name) then name[1..] else name
  }

  function OptionValue(name: string, raw: string): Value {
    if IsScalarOption(name) then Str(Pieces(raw)[0]) else StrList(Pieces(raw))
  }

  /** What an option contributes to the record: a `~key` option stores under `key` the first
      stripped piece alone, which is `raw` up to its first ", " (or all of `raw` when it has
      none) with the whitespace at both ends cut off; any other option stores under its own
      name every stripped piece, in the order they appear in `raw`. */
  lemma OptionEntry(name: string, raw: string)
    ensures IsScalarOption(name) ==>
              && OptionKey(name) == name[1..] && |OptionKey(name)| == |name| - 1
              && OptionValue(name, raw).Str?
              && Stripped(OptionValue(name, raw).s)
              && OptionValue(name, raw).s == Strip(raw[..|Split(raw)[0]|])
              && exists p :: FirstPiece(raw, p) && OptionValue(name, raw).s == Strip(p)
    ensures !IsScalarOption(name) ==>
              && OptionKey(name) == name
              && OptionValue(name, raw).StrList?
              && |OptionValue(name, raw).items| == |Split(raw)|
              && forall k :: 0 <= k < |Split(raw)| ==>
                   OptionValue(name, raw).items[k] == Strip(Split(raw)[k])
  {
    SplitFirstPiece(raw);
  }

  /** The record `ensure_definition` has built for `section` after applying `options` in
      order, or the error raised on the first empty option name. */
  function SectionRecord(section: string, options: seq<(string, string)>): (r: Result<Params, LoadError>)
    ensures r.Ok? ==> "name" in r.value
    decreases |options|
  {
    if |options| == 0 then Ok(map["name" := Str(section)])
    else
      var prev := SectionRecord(section, options[..|options| - 1]);
      var name := options[|options| - 1].0;
      if prev.Err? then prev
      else if name == "" then Err(EmptyOptionName(section, |options| - 1))
      else Ok(prev.value[OptionKey(name) := OptionValue(name, options[|options| - 1].1)])
  }

  /** `i` is the last option that writes `key`. */
  predicate LastWriter(options: seq<(string, string)>, key: string, i: int) {
    && 0 <= i < |options|
    && OptionKey(options[i].0) == key
    && forall j :: i < j < |options| ==> OptionKey(options[j].0) != key
  }

  /** One option more: an earlier error stands, an empty name fails at its position, and
      any other name succeeds when the options before it did. */
  lemma SectionRecordStep(section: string, options: seq<(string, string)>)
    requires |options| > 0
    ensures var prev := SectionRecord(section, options[..|options| - 1]);
            && (prev.Err? ==> SectionRecord(section, options) == prev)
            && (prev.Ok? && options[|options| - 1].0 == "" ==>
                  SectionRecord(section, options) == Err(EmptyOptionName(section, |options| - 1)))
            && (prev.Ok? && options[|options| - 1].0 != "" ==> SectionRecord(section, options).Ok?)
  {
  }

  /** No option name is empty. */
  predicate NamesGiven(options: seq<(string, string)>) {
    forall i :: 0 <= i < |options| ==> options[i].0 != ""
  }

  /** Building fails exactly when some option name is empty. */
  lemma {:induction false} SectionRecordOk(section: string, options: seq<(string, string)>)
    ensures SectionRecord(section, options).Ok? <==> NamesGiven(options)
    decreases |options|
  {
    if |options| > 0 {
      var n := |options| - 1;
      var init := options[..n];
      SectionRecordOk(section, init);
      SectionRecordStep(section, options);
      NamesSnoc(options);
    }
  }

  lemma NamesSnoc(options: seq<(string, string)>)
    requires |options| > 0
    ensures NamesGiven(options) <==> NamesGiven(options[..|options| - 1]) && options[|options| - 1].0 != ""
  {
    var n := |options| - 1;
    assert forall i :: 0 <= i < n ==> options[..n][i] == options[i];
  }

  /** A failure is reported at the first empty option name. */
  lemma {:induction false} SectionRecordFails(section: string, options: seq<(string, string)>)
    requires SectionRecord(section, options).Err?
    ensures var e := SectionRecord(section, options).error;
            && e.section == section && e.position < |options| && options[e.position].0 == ""
            && forall i :: 0 <= i < e.position ==> options[i].0 != ""
    decreases |options|
  {
    var n := |options| - 1;
    var init := options[..n];
    SectionRecordStep(section, options);
    assert forall i :: 0 <= i < n ==> init[i] == options[i];
    if SectionRecord(section, init).Err? {
      SectionRecordFails(section, init);
    } else {
      SectionRecordOk(section, init);
    }
  }

  /** Some option writes `key`. */
  predicate Written(options: seq<(string, string)>, key: string) {
    exists i :: 0 <= i < |options| && OptionKey(options[i].0) == key
  }

  /** The fields of the built record are `name` and the keys the options write. */
  lemma {:induction false} SectionRecordKeys(section: string, options: seq<(string, string)>, key: string)
    requires SectionRecord(section, options).Ok?
    ensures key in SectionRecord(section, options).value <==> key == "name" || Written(options, key)
    decreases |options|
  {
    if |options| > 0 {
      var n := |options| - 1;
      var init := options[..n];
      SectionRecordKeys(section, init, key);
      if OptionKey(options[n].0) != key {
        assert Written(options, key) ==> Written(init, key) by {
          if Written(options, key) {
            var i :| 0 <= i < |options| && OptionKey(options[i].0) == key;
            assert init[i] == options[i];
          }
        }
        assert Written(init, key) ==> Written(options, key) by {
          if Written(init, key) {
            var i :| 0 <= i < |init| && OptionKey(init[i].0) == key;
            assert init[i] == options[i];
          }
        }
      } else {
        assert Written(options, key) by { assert OptionKey(options[n].0) == key; }
      }
    }
  }

  /** Each written key holds what its last writer stores: options apply in order, so a later
      option overrides an earlier one that maps to the same key (`~x` after `x`). */
  lemma {:induction false} SectionRecordLastWriter(section: string, options: seq<(string, string)>, key: string, i: nat)
    requires SectionRecord(section, options).Ok?
    requires LastWriter(options, key, i)
    ensures key in SectionRecord(section, options).value
    ensures SectionRecord(section, options).value[key] == OptionValue(options[i].0, options[i].1)
    decreases |options|
  {
    var n := |options| - 1;
    var init := options[..n];
    var name := options[n].0;
    SectionRecordStep(section, options);
    var prev := SectionRecord(section, init);
    assert prev.Ok? && name != "";
    var k := OptionKey(name);
    assert SectionRecord(section, options) == Ok(prev.value[k := OptionValue(name, options[n].1)]);
    if i < n {
      LastWriterInit(options, key, i);
      SectionRecordLastWriter(section, init, key, i);
    }
  }

  /** The last writer among all options is the last writer among all but the final one,
      unless it is the final one. */
  lemma LastWriterInit(options: seq<(string, string)>, key: string, i: nat)
    requires LastWriter(options, key, i) && i < |options| - 1
    ensures LastWriter(options[..|options| - 1], key, i)
    ensures OptionKey(options[|options| - 1].0) != key
  {
    var init := options[..|options| - 1];
    assert init[i] == options[i];
    forall j | i < j < |init| ensures OptionKey(init[j].0) != key {
      assert init[j] == options[j];
    }
  }

  /** The record's `name` is the section's name unless some option writes `name`. */
  lemma {:induction false} SectionRecordName(section: string, options: seq<(string, string)>)
    requires SectionRecord(section, options).Ok?
    requires !Written(options, "name")
    ensures SectionRecord(section, options).value["name"] == Str(section)
    decreases |options|
  {
    if |options| > 0 {
      var n := |options| - 1;
      var init := options[..n];
      forall i | 0 <= i < |init| ensures OptionKey(init[i].0) != "name" {
        assert init[i] == options[i];
      }
      assert OptionKey(options[n].0) != "name";
      SectionRecordName(section, init);
    }
  }

  lemma {:induction false} SectionRecordErrorSticks(section: string, options: seq<(string, string)>, n: nat)
    requires n <= |options| && SectionRecord(section, options[..n]).Err?
    ensures SectionRecord(section, options) == SectionRecord(section, options[..n])
    decreases |options| - n
  {
    if n < |options| {
      assert options[..n + 1][..n] == options[..n];
      SectionRecordErrorSticks(section, options, n + 1);
    } else {
      assert options[..n] == options;
    }
  }

  /** The body of the loop over one section's options: start from `name = section` and write
      each option's entry into the record in turn. */
  method BuildRecord(section: string, options: seq<(string, string)>) returns (r: Result<Params, LoadError>)
    ensures r == SectionRecord(section, options)
  {
    var params := map["name" := Str(section)];
    var i := 0;
    while i < |options|
      invariant 0 <= i <= |options|
      invariant SectionRecord(section, options[..i]) == Ok(params)
    {
      var (name, raw) := options[i];
      if name == "" {
        assert options[..i + 1][..i] == options[..i];
        SectionRecordErrorSticks(section, options, i + 1);
        return Err(EmptyOptionName(section, i));
      }
      var value := Pieces(raw);
      if name[0] == '~' {
        params := params[name[1..] := Str(value[0])];
      } else {
        params := params[name := StrList(value)];
      }
      assert options[..i + 1][..i] == options[..i];
      i := i + 1;
    }
    assert options[..i] == options;
    r := Ok(params);
  }

  /** `ensure_definition`: builds the record of every section in order and upserts it. The
      result lists the records upserted, in order; an empty option name stops the run with
      the error, after the sections before it were upserted. */
  method EnsureDefinitions(sections: seq<Section>) returns (upserted: seq<Params>, failure: Option<LoadError>)
    ensures |upserted| <= |sections|
    ensures forall k :: 0 <= k < |upserted| ==> SectionRecord(sections[k].0, sections[k].1) == Ok(upserted[k])
    ensures failure.None? ==> |upserted| == |sections|
    ensures failure.Some? ==> |upserted| < |sections|
                              && SectionRecord(sections[|upserted|].0, sections[|upserted|].1) == Err(failure.value)
  {
    upserted := [];
    var i := 0;
    while i < |sections|
      invariant 0 <= i <= |sections| && |upserted| == i
      invariant forall k :: 0 <= k < i ==> SectionRecord(sections[k].0, sections[k].1) == Ok(upserted[k])
    {
      var (section, options) := sections[i];
      var r := BuildRecord(section, options);
      match r
      case Err(e) =>
        return upserted, Some(e);
      case Ok(params) =>
        upserted := upserted + [params];
      i := i + 1;
    }
    failure := None;
  }

  /** `pull_definitions`: one record per stored document, in cursor order, each stamped in
      its `type` field with the requested kind and otherwise unchanged. */
  method PullDefinitions(kind: Kind, cursor: seq<Params>) returns (definitions: seq<Params>)
    ensures |definitions| == |cursor|
    ensures forall i :: 0 <= i < |cursor| ==> KindOf(definitions[i]) == Some(kind)
    ensures forall i :: 0 <= i < |cursor| ==> definitions[i].Keys == cursor[i].Keys + {"type"}
    ensures forall i, f :: 0 <= i < |cursor| && f in cursor[i] && f != "type" ==>
              definitions[i][f] == cursor[i][f]
  {
    definitions := [];
    for i := 0 to |cursor|
      invariant |definitions| == i
      invariant forall j :: 0 <= j < i ==> definitions[j] == cursor[j]["type" := Str(kind.Name())]
    {
      var params := cursor[i];
      params := params["type" := Str(kind.Name())];
      definitions := definitions + [params];
    }
  }
}
