/** Label sets: the canonical key order (`createOrderedKeys`), the series
    identity key (`sampleLabels.key`), decoding of the stored label column
    (`sampleLabels.Scan`) and the text form of a metric on the write path
    (`metricString`). */
module Labels {
  import opened Outcomes
  import opened Text

  /** Prometheus' `model.MetricNameLabel`. */
  const NameLabel: string := "__name__"

  /** The byte 0xFF, which cannot occur in valid UTF-8: the separator of
      identity keys. */
  const Separator: char := '\U{FF}'

  /** `sampleLabels`: the stored JSON, the decoded map and its sorted keys. */
  datatype SampleLabels = SampleLabels(json: string, labelMap: map<string, string>, orderedKeys: seq<string>)

  /** The invariant `Scan` establishes: the ordered keys are the map's keys,
      each once, ascending. */
  predicate Canonical(l: SampleLabels)
  {
    Sorted(l.orderedKeys) && multiset(l.orderedKeys) == multiset(l.labelMap.Keys)
  }

  /** Sorted keys list each key of the map exactly once and nothing else. */
  lemma OrderedKeysExactlyOnce(keys: seq<string>, m: map<string, string>)
    requires Sorted(keys) && multiset(keys) == multiset(m.Keys)
    ensures |keys| == |m|
    ensures forall k :: k in keys <==> k in m
    ensures forall i, j :: 0 <= i < j < |keys| ==> Below(keys[i], keys[j])
  {
    SortedUnique(keys, SortedSet(m.Keys));
    assert |keys| == |multiset(keys)| == |multiset(m.Keys)| == |m.Keys|;
    forall k ensures k in keys <==> k in m {
      assert k in keys <==> k in multiset(keys);
    }
  }

  /** `createOrderedKeys`: the map's keys, collected in whatever order the map
      yields them, then sorted. The result does not depend on that order. */
  method CreateOrderedKeys(m: map<string, string>) returns (keys: seq<string>)
    ensures Sorted(keys) && multiset(keys) == multiset(m.Keys)
    ensures keys == SortedSet(m.Keys)
  {
    keys := [];
    var rest := m.Keys;
    while rest != {}
      invariant rest <= m.Keys
      invariant multiset(keys) == multiset(m.Keys - rest)
      decreases rest
    {
      var k :| k in rest;
      assert m.Keys - (rest - {k}) == (m.Keys - rest) + {k};
      keys := keys + [k];
      rest := rest - {k};
    }
    assert m.Keys - rest == m.Keys;
    SortStringsCorrect(keys);
    keys := SortStrings(keys);
    SortedUnique(keys, SortedSet(m.Keys));
  }

  /** `sampleLabels.len`: the number of labels in a canonical label set. */
  function Len(l: SampleLabels): (n: nat)
    ensures Canonical(l) ==> n == |l.labelMap|
  {
    assert Canonical(l) ==> |l.orderedKeys| == |multiset(l.orderedKeys)| == |multiset(l.labelMap.Keys)|;
    |l.orderedKeys|
  }

  /** One `k + "\xff" + Map[k]` element of an identity key. */
  function PairFormatter(m: map<string, string>): string -> string
  {
    k => k + [Separator] + Lookup(m, k)
  }

  /** `sampleLabels.key(extra)`: the discriminator, then one name/value pair per
      ordered key, all joined with the separator. */
  function IdentityKey(l: SampleLabels, extra: string): (r: string)
    ensures l.orderedKeys == [] ==> r == extra + [Separator]
  {
    Join([extra + [Separator]] + MapSeq(PairFormatter(l.labelMap), l.orderedKeys), [Separator])
  }

  /** `sampleLabels.key(extra)`: the pairs are appended one ordered key at a
      time behind the discriminator, then joined. */
  method Key(l: SampleLabels, extra: string) returns (r: string)
    ensures r == IdentityKey(l, extra)
  {
    var pairs := [extra + [Separator]];
    for i := 0 to |l.orderedKeys|
      invariant pairs == [extra + [Separator]] + MapSeq(PairFormatter(l.labelMap), l.orderedKeys[..i])
    {
      var k := l.orderedKeys[i];
      MapSeqAppend(PairFormatter(l.labelMap), l.orderedKeys[..i], [k]);
      assert l.orderedKeys[..i + 1] == l.orderedKeys[..i] + [k];
      pairs := pairs + [k + [Separator] + Lookup(l.labelMap, k)];
    }
    assert l.orderedKeys[..|l.orderedKeys|] == l.orderedKeys;
    r := Join(pairs, [Separator]);
  }

  /** Label sets with the same contents have the same identity key, whatever
      order their labels were decoded in. */
  lemma KeyDependsOnlyOnContents(l1: SampleLabels, l2: SampleLabels, extra: string)
    requires Canonical(l1) && Canonical(l2) && l1.labelMap == l2.labelMap
    ensures IdentityKey(l1, extra) == IdentityKey(l2, extra)
  {
    SortedUnique(l1.orderedKeys, l2.orderedKeys);
  }

  /** The identity key as one flat join: discriminator, an empty field, then
      each key followed by its value. */
  function Fields(keys: seq<string>, m: map<string, string>): (r: seq<string>)
    ensures |r| == 2 * |keys|
  {
    if keys == [] then [] else [keys[0], Lookup(m, keys[0])] + Fields(keys[1..], m)
  }

  lemma {:induction false} FieldsAt(keys: seq<string>, m: map<string, string>, i: nat)
    requires i < |keys|
    ensures Fields(keys, m)[2 * i] == keys[i] && Fields(keys, m)[2 * i + 1] == Lookup(m, keys[i])
  {
    if i > 0 { FieldsAt(keys[1..], m, i - 1); }
  }

  lemma {:induction false} PairsAsFields(keys: seq<string>, m: map<string, string>)
    requires keys != []
    ensures Join(MapSeq(PairFormatter(m), keys), [Separator]) == Join(Fields(keys, m), [Separator])
  {
    var p := MapSeq(PairFormatter(m), keys);
    assert Join([keys[0], Lookup(m, keys[0])], [Separator]) == p[0];
    if |keys| > 1 {
      PairsAsFields(keys[1..], m);
      assert p == [p[0]] + MapSeq(PairFormatter(m), keys[1..]);
      JoinAppend([keys[0], Lookup(m, keys[0])], Fields(keys[1..], m), [Separator]);
    } else {
      assert Fields(keys, m) == [keys[0], Lookup(m, keys[0])];
    }
  }

  lemma KeyAsFields(l: SampleLabels, extra: string)
    ensures IdentityKey(l, extra) == Join([extra, ""] + Fields(l.orderedKeys, l.labelMap), [Separator])
  {
    var keys, m := l.orderedKeys, l.labelMap;
    assert Join([extra, ""], [Separator]) == extra + [Separator];
    if keys != [] {
      PairsAsFields(keys, m);
      JoinAppend([extra + [Separator]], MapSeq(PairFormatter(m), keys), [Separator]);
      JoinAppend([extra, ""], Fields(keys, m), [Separator]);
    } else {
      assert [extra, ""] + Fields(keys, m) == [extra, ""];
      assert [extra + [Separator]] + MapSeq(PairFormatter(m), keys) == [extra + [Separator]];
    }
  }

  /** No label name or value of `l` contains the separator; true of every label
      set decoded from valid UTF-8 JSON. */
  predicate SeparatorFree(l: SampleLabels)
  {
    forall k :: k in l.labelMap ==> Free(k, Separator) && Free(l.labelMap[k], Separator)
  }

  /** Equal field lists come from equal key lists with equal values. */
  lemma FieldsInjective(k1: seq<string>, m1: map<string, string>, k2: seq<string>, m2: map<string, string>)
    requires Fields(k1, m1) == Fields(k2, m2)
    ensures k1 == k2
    ensures forall i :: 0 <= i < |k1| ==> Lookup(m1, k1[i]) == Lookup(m2, k2[i])
  {
    forall i | 0 <= i < |k1| ensures k1[i] == k2[i] && Lookup(m1, k1[i]) == Lookup(m2, k2[i]) {
      FieldsAt(k1, m1, i);
      FieldsAt(k2, m2, i);
    }
  }

  /** Canonical label sets with the same ordered keys and the same value under
      each key are the same map. */
  lemma SameKeysSameValues(l1: SampleLabels, l2: SampleLabels)
    requires Canonical(l1) && Canonical(l2) && l1.orderedKeys == l2.orderedKeys
    requires forall i :: 0 <= i < |l1.orderedKeys| ==> Lookup(l1.labelMap, l1.orderedKeys[i]) == Lookup(l2.labelMap, l2.orderedKeys[i])
    ensures l1.labelMap == l2.labelMap
  {
    var m1, m2, ks := l1.labelMap, l2.labelMap, l1.orderedKeys;
    OrderedKeysExactlyOnce(ks, m1);
    OrderedKeysExactlyOnce(ks, m2);
    assert m1.Keys == m2.Keys;
    forall k | k in m1 ensures m1[k] == m2[k] {
      var i :| 0 <= i < |ks| && ks[i] == k;
    }
  }

  /** Under the separator-free condition the identity key can be read back:
      equal keys mean equal discriminators and equal label maps. */
  lemma KeyInjective(l1: SampleLabels, e1: string, l2: SampleLabels, e2: string)
    requires Canonical(l1) && Canonical(l2) && SeparatorFree(l1) && SeparatorFree(l2)
    requires Free(e1, Separator) && Free(e2, Separator)
    requires IdentityKey(l1, e1) == IdentityKey(l2, e2)
    ensures e1 == e2 && l1.labelMap == l2.labelMap
  {
    var m1, m2 := l1.labelMap, l2.labelMap;
    var k1, k2 := l1.orderedKeys, l2.orderedKeys;
    OrderedKeysExactlyOnce(k1, m1);
    OrderedKeysExactlyOnce(k2, m2);
    var f1, f2 := [e1, ""] + Fields(k1, m1), [e2, ""] + Fields(k2, m2);
    FieldsFree(k1, m1);
    FieldsFree(k2, m2);
    KeyAsFields(l1, e1);
    KeyAsFields(l2, e2);
    JoinInjective(f1, f2, Separator);
    assert e1 == f1[0] == f2[0] == e2;
    assert Fields(k1, m1) == f1[2..] == f2[2..] == Fields(k2, m2);
    FieldsInjective(k1, m1, k2, m2);
    SameKeysSameValues(l1, l2);
  }

  /** Two rows belong to the same series iff their identity keys are equal:
      the key determines the metric name and the whole label set. */
  lemma KeyIdentifiesSeries(l1: SampleLabels, e1: string, l2: SampleLabels, e2: string)
    requires Canonical(l1) && Canonical(l2) && SeparatorFree(l1) && SeparatorFree(l2)
    requires Free(e1, Separator) && Free(e2, Separator)
    ensures IdentityKey(l1, e1) == IdentityKey(l2, e2) <==> e1 == e2 && l1.labelMap == l2.labelMap
  {
    if e1 == e2 && l1.labelMap == l2.labelMap {
      KeyDependsOnlyOnContents(l1, l2, e1);
    }
    if IdentityKey(l1, e1) == IdentityKey(l2, e2) {
      KeyInjective(l1, e1, l2, e2);
    }
  }

  lemma FieldsFree(keys: seq<string>, m: map<string, string>)
    requires forall k :: k in keys ==> k in m
    requires forall k :: k in m ==> Free(k, Separator) && Free(m[k], Separator)
    ensures forall i :: 0 <= i < |Fields(keys, m)| ==> Free(Fields(keys, m)[i], Separator)
  {
    forall i | 0 <= i < |Fields(keys, m)| ensures Free(Fields(keys, m)[i], Separator) {
      FieldsAt(keys, m, i / 2);
      assert i == 2 * (i / 2) || i == 2 * (i / 2) + 1;
    }
  }

  /** The label column as the driver hands it to `Scan`. */
  datatype ColumnValue = Null | Bytes(payload: string) | OtherType(typeName: string)

  /** What `Scan` makes of a column value: a byte payload is decoded (or the
      decoder's error returned), any other non-nil type is an error, and nil
      leaves the receiver as it was. */
  ghost function ScanResult(l: SampleLabels, value: ColumnValue, unmarshal: string -> Result<map<string, string>>): Result<SampleLabels>
  {
    match value
    case Null => Ok(l)
    case OtherType(t) => Err(InvalidLabelsValue(t))
    case Bytes(p) =>
      match unmarshal(p)
      case Err(e) => Err(e)
      case Ok(m) => Ok(SampleLabels(p, m, SortedSet(m.Keys)))
  }

  /** `sampleLabels.Scan`, with the JSON decoder as a parameter. On success the
      receiver's new value is canonical and holds the decoded map. */
  method Scan(l: SampleLabels, value: ColumnValue, unmarshal: string -> Result<map<string, string>>)
    returns (r: SampleLabels, err: Option<Error>)
    ensures err.None? <==> ScanResult(l, value, unmarshal).Ok?
    ensures err.Some? ==> r == l && err.value == ScanResult(l, value, unmarshal).error
    ensures err.None? ==> r == ScanResult(l, value, unmarshal).value
    ensures err.None? && value.Bytes? ==> Canonical(r) && r.json == value.payload && Ok(r.labelMap) == unmarshal(value.payload)
  {
    match value {
      case Null =>
        return l, None;
      case Bytes(t) =>
        var decoded := unmarshal(t);
        if decoded.Err? {
          return l, Some(decoded.error);
        }
        var m := decoded.value;
        var keys := CreateOrderedKeys(m);
        return SampleLabels(t, m, keys), None;
      case OtherType(t) =>
        return l, Some(InvalidLabelsValue(t));
    }
  }

  /** One `label="value"` element of a metric's text form, `%q` abstracted as
      `quote`. */
  function FormatLabel(labelName: string, value: string, quote: string -> string): string
  {
    labelName + "=" + quote(value)
  }

  function LabelFormatter(m: map<string, string>, quote: string -> string): string -> string
  {
    k => FormatLabel(k, Lookup(m, k), quote)
  }

  /** The metric's labels other than the name, in ascending key order. */
  ghost function LabelNames(m: map<string, string>): seq<string>
  {
    SortedSet(m.Keys - {NameLabel})
  }

  /** The `k="v"` strings of the labels other than the name, sorted as strings. */
  ghost function LabelParts(m: map<string, string>, quote: string -> string): seq<string>
  {
    SortStrings(MapSeq(LabelFormatter(m, quote), LabelNames(m)))
  }

  /** The text `metricString` produces: the name alone (or `{}`) when there are
      no other labels, else the name and the sorted `k="v"` strings in braces. */
  ghost function MetricText(m: map<string, string>, quote: string -> string): string
  {
    if m.Keys - {NameLabel} == {} then
      if NameLabel in m then m[NameLabel] else "{}"
    else
      Lookup(m, NameLabel) + "{" + Join(LabelParts(m, quote), ",") + "}"
  }

  /** `s` is the `k="v"` string of a label other than the name. */
  ghost predicate IsLabelPart(m: map<string, string>, quote: string -> string, s: string)
  {
    exists k :: k in m && k != NameLabel && s == FormatLabel(k, m[k], quote)
  }

  /** `metricString`: labels are visited in the map's (unspecified) order, the
      formatted strings are sorted, then joined. The order of the visit does
      not show in the result. */
  method MetricString(m: map<string, string>, quote: string -> string) returns (r: string)
    ensures r == MetricText(m, quote)
  {
    var metricName := Lookup(m, NameLabel);
    var hasName := NameLabel in m;
    var numLabels := |m| - 1;
    if !hasName {
      numLabels := |m|;
    }
    var labelStrings: seq<string> := [];
    ghost var visited: seq<string> := [];
    var rest := m.Keys;
    while rest != {}
      invariant rest <= m.Keys
      invariant multiset(visited) == multiset((m.Keys - rest) - {NameLabel})
      invariant labelStrings == MapSeq(LabelFormatter(m, quote), visited)
      decreases rest
    {
      var labelName :| labelName in rest;
      if labelName != NameLabel {
        VisitOne(m, quote, rest, visited, labelName);
        labelStrings := labelStrings + [FormatLabel(labelName, m[labelName], quote)];
        visited := visited + [labelName];
      } else {
        SkipName(m.Keys, rest);
      }
      rest := rest - {labelName};
    }
    assert m.Keys - rest == m.Keys;
    OtherLabelCount(m);
    if numLabels == 0 {
      if hasName {
        return metricName;
      }
      return "{}";
    }
    VisitOrderIrrelevant(m, quote, visited);
    labelStrings := SortStrings(labelStrings);
    return metricName + "{" + Join(labelStrings, ",") + "}";
  }

  /** Visiting one more label, `x`, adds exactly `x` to the visited labels and
      its `k="v"` string to the formatted ones. */
  lemma VisitOne(m: map<string, string>, quote: string -> string, rest: set<string>, visited: seq<string>, x: string)
    requires x in rest && rest <= m.Keys && x != NameLabel
    requires multiset(visited) == multiset((m.Keys - rest) - {NameLabel})
    ensures multiset(visited + [x]) == multiset((m.Keys - (rest - {x})) - {NameLabel})
    ensures MapSeq(LabelFormatter(m, quote), visited + [x]) == MapSeq(LabelFormatter(m, quote), visited) + [FormatLabel(x, m[x], quote)]
  {
    var before := (m.Keys - rest) - {NameLabel};
    assert (m.Keys - (rest - {x})) - {NameLabel} == before + {x};
    assert x !in before;
    SetInsertMultiset(before, x);
    assert multiset(visited + [x]) == multiset(visited) + multiset{x};
    MapSeqAppend(LabelFormatter(m, quote), visited, [x]);
    assert MapSeq(LabelFormatter(m, quote), [x]) == [FormatLabel(x, m[x], quote)];
  }

  /** Visiting the name label adds nothing to the visited labels. */
  lemma SkipName(keys: set<string>, rest: set<string>)
    ensures (keys - (rest - {NameLabel})) - {NameLabel} == (keys - rest) - {NameLabel}
  {
  }

  /** `len(m) - 1` with a name, `len(m)` without: the number of other labels. */
  lemma OtherLabelCount(m: map<string, string>)
    ensures |m.Keys - {NameLabel}| == if NameLabel in m then |m| - 1 else |m|
  {
    if NameLabel in m { assert m.Keys == (m.Keys - {NameLabel}) + {NameLabel}; }
    else { assert m.Keys - {NameLabel} == m.Keys; }
  }

  /** Visiting the labels in any order and then sorting the formatted strings
      gives the same sequence as formatting them in key order and sorting. */
  lemma VisitOrderIrrelevant(m: map<string, string>, quote: string -> string, visited: seq<string>)
    requires multiset(visited) == multiset(m.Keys - {NameLabel})
    ensures SortStrings(MapSeq(LabelFormatter(m, quote), visited)) == SortStrings(MapSeq(LabelFormatter(m, quote), LabelNames(m)))
  {
    MapSeqPermutation(LabelFormatter(m, quote), visited, LabelNames(m));
    SortStringsPermutationInvariant(MapSeq(LabelFormatter(m, quote), visited), MapSeq(LabelFormatter(m, quote), LabelNames(m)));
  }

  /** What goes between the braces: the `k="v"` strings sorted as strings (not
      by key), one per label other than `__name__`, and nothing else. */
  lemma MetricTextShape(m: map<string, string>, quote: string -> string)
    ensures var parts := LabelParts(m, quote);
      && Sorted(parts)
      && |parts| == |m.Keys - {NameLabel}|
      && (forall k :: k in m && k != NameLabel ==> FormatLabel(k, m[k], quote) in parts)
      && (forall i :: 0 <= i < |parts| ==> IsLabelPart(m, quote, parts[i]))
  {
    var names := LabelNames(m);
    var unsorted := MapSeq(LabelFormatter(m, quote), names);
    var parts := SortStrings(unsorted);
    SortStringsCorrect(unsorted);
    assert |names| == |multiset(names)| == |m.Keys - {NameLabel}|;
    assert |parts| == |multiset(parts)| == |unsorted|;
    EveryLabelFormatted(m, quote, names, unsorted, parts);
    OnlyLabelsFormatted(m, quote, names, unsorted, parts);
  }

  lemma EveryLabelFormatted(m: map<string, string>, quote: string -> string, names: seq<string>, unsorted: seq<string>, parts: seq<string>)
    requires multiset(names) == multiset(m.Keys - {NameLabel})
    requires unsorted == MapSeq(LabelFormatter(m, quote), names)
    requires multiset(parts) == multiset(unsorted)
    ensures forall k :: k in m && k != NameLabel ==> FormatLabel(k, m[k], quote) in parts
  {
    forall k | k in m && k != NameLabel ensures FormatLabel(k, m[k], quote) in parts {
      assert k in multiset(names);
      var i :| 0 <= i < |names| && names[i] == k;
      assert unsorted[i] == FormatLabel(k, m[k], quote);
      assert unsorted[i] in multiset(parts);
    }
  }

  lemma OnlyLabelsFormatted(m: map<string, string>, quote: string -> string, names: seq<string>, unsorted: seq<string>, parts: seq<string>)
    requires multiset(names) == multiset(m.Keys - {NameLabel})
    requires unsorted == MapSeq(LabelFormatter(m, quote), names)
    requires multiset(parts) == multiset(unsorted)
    ensures forall i :: 0 <= i < |parts| ==> IsLabelPart(m, quote, parts[i])
  {
    forall i | 0 <= i < |parts| ensures IsLabelPart(m, quote, parts[i]) {
      assert parts[i] in multiset(unsorted);
      var j :| 0 <= j < |unsorted| && unsorted[j] == parts[i];
      assert names[j] in multiset(names);
      assert names[j] in m && names[j] != NameLabel;
      assert parts[i] == FormatLabel(names[j], m[names[j]], quote);
    }
  }
}
