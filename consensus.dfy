/**
 * Structured field extraction: the extraction prompt, one model attempt per
 * `ask` (the model call and the JSON decoding of its reply, `None` for any
 * failure), and the majority-vote reduction of all attempts into one record.
 */
module Consensus {
  import opened Wrappers
  import opened Strings
  import opened Schema

  /** A decoded extraction reply or a reduced record: field name to value; "" is a falsy value. */
  type Record = map<string, string>

  function FieldLine(f: FieldDef): string {
    "- " + f.name + ": " + f.description + " (Example: " + f.example + ")\n"
  }

  function FieldLines(fields: seq<FieldDef>): string {
    if |fields| == 0 then "" else FieldLines(fields[..|fields| - 1]) + FieldLine(fields[|fields| - 1])
  }

  function PromptOpening(docType: DocType): string {
    "Extract structured " + docType.Name() + " details from the following document and return them in JSON format.\n\n"
    + "Document text:\n"
  }

  const REQUIRED_LABEL: string := "\n\nRequired fields:\n"

  function PromptHead(text: string, docType: DocType): string {
    PromptOpening(docType) + text + REQUIRED_LABEL
  }

  const PROMPT_TAIL: string := "\nEnsure the JSON contains all listed fields, even if empty."

  function ExtractionPromptText(text: string, docType: DocType, fields: seq<FieldDef>): string {
    PromptHead(text, docType) + FieldLines(fields) + PROMPT_TAIL
  }

  /** The prompt of `refine_extraction_with_mistral`: a head with the text, one line per field, a tail. */
  method ExtractionPrompt(text: string, docType: DocType, fields: seq<FieldDef>) returns (prompt: string)
    ensures prompt == ExtractionPromptText(text, docType, fields)
  {
    var head := PromptHead(text, docType);
    prompt := head;
    for i := 0 to |fields|
      invariant prompt == head + FieldLines(fields[..i])
    {
      assert fields[..i + 1][..i] == fields[..i];
      assert FieldLines(fields[..i + 1]) == FieldLines(fields[..i]) + FieldLine(fields[i]);
      Associative(head, FieldLines(fields[..i]), FieldLine(fields[i]));
      prompt := prompt + FieldLine(fields[i]);
    }
    assert fields[..|fields|] == fields;
    prompt := prompt + PROMPT_TAIL;
  }

  lemma Associative(a: string, b: string, c: string)
    ensures (a + b) + c == a + (b + c)
  {
  }

  /** Where the line of field `j` starts in the prompt. */
  function FieldOffset(text: string, docType: DocType, fields: seq<FieldDef>, j: nat): nat
    requires j <= |fields|
  {
    |PromptHead(text, docType)| + |FieldLines(fields[..j])|
  }

  lemma {:induction false} FieldLinesPrefix(fields: seq<FieldDef>, j: nat)
    requires j <= |fields|
    ensures |FieldLines(fields[..j])| <= |FieldLines(fields)|
    ensures FieldLines(fields)[..|FieldLines(fields[..j])|] == FieldLines(fields[..j])
    decreases |fields|
  {
    if j < |fields| {
      var front := fields[..|fields| - 1];
      assert fields[..j] == front[..j];
      FieldLinesPrefix(front, j);
      var whole := FieldLines(fields);
      assert whole == FieldLines(front) + FieldLine(fields[|fields| - 1]);
      assert whole[..|FieldLines(front)|] == FieldLines(front);
    } else {
      assert fields[..j] == fields;
    }
  }

  lemma OccursInMiddle(hay: string, a: string, b: string, c: string, at: nat)
    requires hay == a + b + c && at == |a|
    ensures OccursAt(hay, b, at)
  {
    assert hay[|a|..|a| + |b|] == b;
  }

  lemma Regroup(a: string, b: string, c: string, d: string, e: string)
    ensures a + (b + c + d) + e == (a + b) + c + (d + e)
    ensures (a + b + c) + d + e == a + b + (c + d + e)
  {
  }

  /** The prompt holds the document text right after its opening sentence. */
  lemma PromptHoldsText(text: string, docType: DocType, fields: seq<FieldDef>)
    ensures OccursAt(ExtractionPromptText(text, docType, fields), text, |PromptOpening(docType)|)
  {
    var opening := PromptOpening(docType);
    var lines := FieldLines(fields);
    var prompt := ExtractionPromptText(text, docType, fields);
    assert prompt == (opening + text + REQUIRED_LABEL) + lines + PROMPT_TAIL;
    Regroup(opening, text, REQUIRED_LABEL, lines, PROMPT_TAIL);
    OccursInMiddle(prompt, opening, text, REQUIRED_LABEL + lines + PROMPT_TAIL, |opening|);
  }

  /**
   * The prompt lists every field's line in schema order: field `j`'s line starts
   * where field `j - 1`'s line ends.
   */
  lemma PromptListsField(text: string, docType: DocType, fields: seq<FieldDef>, j: nat)
    requires j < |fields|
    ensures OccursAt(ExtractionPromptText(text, docType, fields), FieldLine(fields[j]), FieldOffset(text, docType, fields, j))
    ensures FieldOffset(text, docType, fields, j + 1) == FieldOffset(text, docType, fields, j) + |FieldLine(fields[j])|
  {
    var before := FieldLines(fields[..j]);
    var line := FieldLine(fields[j]);
    assert FieldLines(fields[..j + 1]) == before + line by {
      assert fields[..j + 1][..j] == fields[..j];
    }
    var all := FieldLines(fields);
    FieldLinesPrefix(fields, j + 1);
    var after := all[|before + line|..];
    assert all == before + line + after;
    var head := PromptHead(text, docType);
    var at := FieldOffset(text, docType, fields, j);
    assert at == |head + before|;
    assert FieldOffset(text, docType, fields, j + 1) == at + |line|;
    var prompt := ExtractionPromptText(text, docType, fields);
    assert prompt == head + all + PROMPT_TAIL;
    assert prompt == (head + before) + line + (after + PROMPT_TAIL) by {
      Regroup(head, before, line, after, PROMPT_TAIL);
    }
    OccursInMiddle(prompt, head + before, line, after + PROMPT_TAIL, at);
  }

  /**
   * `refine_extraction_with_mistral(text, doc_type, fields)`: the decoded reply, or {}
   * when the call or the decoding fails.
   */
  method RefineExtraction(text: string, docType: DocType, fields: seq<FieldDef>,
                          ask: string -> Option<Record>) returns (result: Record)
    ensures var reply := ask(ExtractionPromptText(text, docType, fields));
      && (reply.None? ==> result == map[])
      && (reply.Some? ==> result == reply.value)
  {
    var prompt := ExtractionPrompt(text, docType, fields);
    var reply := ask(prompt);
    if reply.None? {
      return map[];
    }
    result := reply.value;
  }

  /** The records of all attempts, in order; a failed attempt contributes {}. */
  function Attempts(prompt: string, asks: seq<string -> Option<Record>>): (results: seq<Record>)
    ensures |results| == |asks|
    ensures forall i :: 0 <= i < |asks| ==> results[i] == asks[i](prompt).GetOr(map[])
  {
    if |asks| == 0 then []
    else
      var front := Attempts(prompt, asks[..|asks| - 1]);
      assert forall i :: 0 <= i < |asks| - 1 ==> asks[..|asks| - 1][i] == asks[i];
      front + [asks[|asks| - 1](prompt).GetOr(map[])]
  }

  /** The key occurs in some attempt. */
  predicate KeyIn(results: seq<Record>, key: string) {
    exists i :: 0 <= i < |results| && key in results[i]
  }

  /** Some attempt gives `v` for `key`. */
  predicate Gives(results: seq<Record>, key: string, v: string) {
    exists i :: 0 <= i < |results| && key in results[i] && results[i][key] == v
  }

  /** `[r.get(key) for r in results if r.get(key)]`: the truthy values of `key`, attempt by attempt. */
  function TruthyValues(results: seq<Record>, key: string): (values: seq<string>)
    ensures |values| <= |results|
    ensures |values| > 0 ==> KeyIn(results, key)
    ensures forall j :: 0 <= j < |values| ==> values[j] != "" && Gives(results, key, values[j])
  {
    if |results| == 0 then []
    else
      var front := results[..|results| - 1];
      var last := results[|results| - 1];
      var values := TruthyValues(front, key) + (if key in last && last[key] != "" then [last[key]] else []);
      assert forall i :: 0 <= i < |front| ==> front[i] == results[i];
      values
  }

  function Occurrences(values: seq<string>, v: string): nat {
    multiset(values)[v]
  }

  /** The number of attempts whose record gives `v` for `key`. */
  function CountGiving(results: seq<Record>, key: string, v: string): (n: nat)
    ensures n <= |results|
  {
    if |results| == 0 then 0
    else
      var last := results[|results| - 1];
      CountGiving(results[..|results| - 1], key, v) + (if key in last && last[key] == v then 1 else 0)
  }

  /** A truthy value occurs among the collected values once per attempt that gives it. */
  lemma {:induction false} TruthyValuesCount(results: seq<Record>, key: string, v: string)
    requires v != ""
    ensures Occurrences(TruthyValues(results, key), v) == CountGiving(results, key, v)
  {
    if |results| > 0 {
      TruthyValuesCount(results[..|results| - 1], key, v);
    }
  }

  lemma {:induction false} OccurrencesBound(values: seq<string>, v: string)
    ensures Occurrences(values, v) <= |values|
  {
    if |values| > 0 {
      var front := values[..|values| - 1];
      assert values == front + [values[|values| - 1]];
      OccurrencesBound(front, v);
    }
  }

  /**
   * `p` is where `Counter(values).most_common(1)` finds its value: no value is more
   * frequent, and every value before `p` is strictly less frequent (ties go to the
   * value that occurs first).
   */
  predicate IsModeAt(values: seq<string>, p: int) {
    && 0 <= p < |values|
    && (forall j :: 0 <= j < |values| ==> Occurrences(values, values[j]) <= Occurrences(values, values[p]))
    && (forall j :: 0 <= j < p ==> Occurrences(values, values[j]) < Occurrences(values, values[p]))
  }

  /** `Counter(values).most_common(1)[0][0]`. */
  predicate IsMode(values: seq<string>, v: string) {
    exists p :: 0 <= p < |values| && IsModeAt(values, p) && values[p] == v
  }

  /** Some value occurs at least twice. */
  predicate Recurring(values: seq<string>) {
    exists j :: 0 <= j < |values| && Occurrences(values, values[j]) >= 2
  }

  /** `key` is kept with `v`: it occurs in some attempt and `v`, its most common truthy value, occurs twice or more. */
  ghost predicate Kept(results: seq<Record>, key: string, v: string) {
    && KeyIn(results, key)
    && IsMode(TruthyValues(results, key), v)
    && Occurrences(TruthyValues(results, key), v) >= 2
  }

  /**
   * The reduction of `extract_stable_fields`: a key is kept exactly when it occurs in some
   * attempt and its most common truthy value occurs at least twice, and it is kept with
   * that value.
   */
  ghost predicate IsConsensus(results: seq<Record>, final: Record) {
    && (forall k :: k in final ==> Kept(results, k, final[k]))
    && (forall k :: Recurring(TruthyValues(results, k)) ==> k in final)
  }

  /** `count.most_common(1)[0] if count else (None, 0)`; "" stands for None. */
  method MostCommon(values: seq<string>) returns (mode: string, freq: nat)
    ensures freq == 0 <==> values == []
    ensures values != [] ==> IsMode(values, mode) && freq == Occurrences(values, mode)
    ensures forall j :: 0 <= j < |values| ==> Occurrences(values, values[j]) <= freq
  {
    mode, freq := "", 0;
    ghost var p: nat := 0;
    for i := 0 to |values|
      invariant p <= i
      invariant (freq == 0) == (i == 0)
      invariant i > 0 ==> p < i && mode == values[p] && freq == Occurrences(values, mode)
      invariant forall j :: 0 <= j < i ==> Occurrences(values, values[j]) <= freq
      invariant forall j :: 0 <= j < p ==> Occurrences(values, values[j]) < freq
    {
      var count := Occurrences(values, values[i]);
      assert values[i] in multiset(values);
      if count > freq {
        mode, freq, p := values[i], count, i;
      }
    }
    if values != [] {
      assert IsModeAt(values, p);
    }
  }

  /** The loop of `values = [...]` for one key. */
  method CollectValues(results: seq<Record>, key: string) returns (values: seq<string>)
    ensures values == TruthyValues(results, key)
  {
    values := [];
    for i := 0 to |results|
      invariant values == TruthyValues(results[..i], key)
    {
      assert results[..i + 1][..i] == results[..i];
      var r := results[i];
      if key in r && r[key] != "" {
        values := values + [r[key]];
      }
    }
    assert results[..|results|] == results;
  }

  /** The body of the reduction loop for one key: keep its most common value if that occurs twice. */
  method ReduceKey(results: seq<Record>, key: string) returns (keep: bool, value: string)
    ensures keep ==> Kept(results, key, value)
    ensures !keep ==> !Recurring(TruthyValues(results, key))
  {
    var values := CollectValues(results, key);
    var mostCommon, freq := MostCommon(values);
    keep, value := freq >= 2, mostCommon;
  }

  /** The reduction loop over the union of the attempts' keys. */
  method Reduce(results: seq<Record>) returns (final: Record)
    ensures IsConsensus(results, final)
  {
    var allKeys := set i, k | 0 <= i < |results| && k in results[i] :: k;
    final := map[];
    var remaining := allKeys;
    while remaining != {}
      invariant remaining <= allKeys
      invariant forall k :: k in final ==> Kept(results, k, final[k])
      invariant forall k :: k in allKeys && k !in remaining && Recurring(TruthyValues(results, k)) ==> k in final
      decreases remaining
    {
      var key :| key in remaining;
      var keep, value := ReduceKey(results, key);
      if keep {
        final := final[key := value];
      }
      remaining := remaining - {key};
    }
    forall k | Recurring(TruthyValues(results, k)) ensures k in final {
      var i :| 0 <= i < |results| && k in results[i];
      assert k in allKeys;
    }
  }

  /**
   * `extract_stable_fields(text, doc_type)` with one attempt per element of `asks`
   * (the source makes exactly one attempt).
   */
  method ExtractStableFields(text: string, docType: DocType, fields: seq<FieldDef>,
                             asks: seq<string -> Option<Record>>) returns (final: Record)
    ensures IsConsensus(Attempts(ExtractionPromptText(text, docType, fields), asks), final)
    ensures |asks| == 1 ==> final == map[]
  {
    var results: seq<Record> := [];
    for i := 0 to |asks|
      invariant results == Attempts(ExtractionPromptText(text, docType, fields), asks[..i])
    {
      assert asks[..i + 1][..i] == asks[..i];
      var result := RefineExtraction(text, docType, fields, asks[i]);
      results := results + [result];
    }
    assert asks[..|asks|] == asks;
    final := Reduce(results);
    if |asks| == 1 {
      SingleAttemptKeepsNothing(results, final);
    }
  }

  /** One attempt can never make a value occur twice: the single-attempt result is always empty. */
  lemma SingleAttemptKeepsNothing(results: seq<Record>, final: Record)
    requires |results| == 1
    requires IsConsensus(results, final)
    ensures final == map[]
  {
    forall k ensures k !in final {
      AtMostOnce(TruthyValues(results, k));
    }
  }

  lemma AtMostOnce(values: seq<string>)
    requires |values| <= 1
    ensures forall v :: Occurrences(values, v) <= 1
  {
    forall v ensures Occurrences(values, v) <= 1 {
      OccurrencesBound(values, v);
    }
  }

  /** The most common value, with the first-occurrence tie-break, is unique. */
  lemma ModeUnique(values: seq<string>, a: string, b: string)
    requires IsMode(values, a) && IsMode(values, b)
    ensures a == b
  {
    var p :| 0 <= p < |values| && IsModeAt(values, p) && values[p] == a;
    var q :| 0 <= q < |values| && IsModeAt(values, q) && values[q] == b;
    assert p == q;
  }

  /** A kept key has a recurring value. */
  lemma KeptRecurring(results: seq<Record>, k: string, v: string)
    requires Kept(results, k, v)
    ensures Recurring(TruthyValues(results, k))
  {
    var values := TruthyValues(results, k);
    var p :| 0 <= p < |values| && IsModeAt(values, p) && values[p] == v;
  }

  /** Two records meeting the consensus contract agree on every key. */
  lemma ConsensusAgreesOn(results: seq<Record>, final: Record, other: Record, k: string)
    requires IsConsensus(results, final) && IsConsensus(results, other)
    ensures k in final <==> k in other
    ensures k in final ==> final[k] == other[k]
  {
    if k in final {
      KeptRecurring(results, k, final[k]);
      ModeUnique(TruthyValues(results, k), final[k], other[k]);
    } else if k in other {
      KeptRecurring(results, k, other[k]);
    }
  }

  /** The consensus contract determines the reduced record completely. */
  lemma ConsensusUnique(results: seq<Record>, final: Record, other: Record)
    requires IsConsensus(results, final) && IsConsensus(results, other)
    ensures final == other
  {
    forall k ensures (k in final <==> k in other) && (k in final ==> final[k] == other[k]) {
      ConsensusAgreesOn(results, final, other, k);
    }
  }

  /** A kept value is truthy and was given for that key by some attempt. */
  lemma KeptValueFromAttempt(results: seq<Record>, final: Record, k: string)
    requires IsConsensus(results, final)
    requires k in final
    ensures final[k] != "" && Gives(results, k, final[k])
  {
    var values := TruthyValues(results, k);
    var j :| 0 <= j < |values| && values[j] == final[k];
  }

  /**
   * For one key, in terms of attempts: the key is kept exactly when some truthy value is
   * given by at least two attempts, and it is kept with a value no other truthy value is
   * given more often than.
   */
  lemma ConsensusCountsAt(results: seq<Record>, final: Record, k: string)
    requires IsConsensus(results, final)
    ensures k in final <==> exists v :: v != "" && CountGiving(results, k, v) >= 2
    ensures k in final ==> final[k] != "" && CountGiving(results, k, final[k]) >= 2
    ensures k in final ==> forall v :: v != "" ==> CountGiving(results, k, v) <= CountGiving(results, k, final[k])
  {
    var values := TruthyValues(results, k);
    if k in final {
      var p :| 0 <= p < |values| && IsModeAt(values, p) && values[p] == final[k];
      TruthyValuesCount(results, k, final[k]);
      forall v | v != "" ensures CountGiving(results, k, v) <= CountGiving(results, k, final[k]) {
        TruthyValuesCount(results, k, v);
        if v in multiset(values) {
          var j :| 0 <= j < |values| && values[j] == v;
        }
      }
    } else {
      forall v | v != "" ensures CountGiving(results, k, v) < 2 {
        TruthyValuesCount(results, k, v);
        if v in multiset(values) {
          var j :| 0 <= j < |values| && values[j] == v;
        }
      }
    }
  }

  /** The truthy value a single record gives for a key, if any. */
  function TruthyIn(r: Record, k: string): seq<string> {
    if k in r && r[k] != "" then [r[k]] else []
  }

  /** The truthy values of a key over two attempts. */
  lemma TwoValues(r0: Record, r1: Record, k: string)
    ensures TruthyValues([r0, r1], k) == TruthyIn(r0, k) + TruthyIn(r1, k)
  {
    var results := [r0, r1];
    assert results[..1] == [r0];
    assert results[..1][..0] == [];
  }

  /** Over two attempts, a key both give with the same truthy value is kept with it. */
  lemma TwoAttemptsAgree(r0: Record, r1: Record, final: Record, k: string)
    requires IsConsensus([r0, r1], final)
    requires k in r0 && k in r1 && r0[k] == r1[k] != ""
    ensures k in final && final[k] == r0[k]
  {
    TwoValues(r0, r1, k);
    var values := TruthyValues([r0, r1], k);
    assert values == [r0[k], r0[k]];
    assert multiset(values) == multiset{r0[k], r0[k]};
    assert Occurrences(values, values[0]) == 2;
    assert Recurring(values);
    var p :| 0 <= p < |values| && IsModeAt(values, p) && values[p] == final[k];
  }

  /** Over two attempts, a key they do not both give with the same truthy value is dropped. */
  lemma TwoAttemptsDisagree(r0: Record, r1: Record, final: Record, k: string)
    requires IsConsensus([r0, r1], final)
    requires !(k in r0 && k in r1 && r0[k] == r1[k] != "")
    ensures k !in final
  {
    TwoValues(r0, r1, k);
    NoRepeat(TruthyIn(r0, k), TruthyIn(r1, k));
  }

  /**
   * Over two attempts the consensus keeps exactly the keys both give with the same
   * truthy value, with that value.
   */
  lemma TwoAttempts(r0: Record, r1: Record, final: Record)
    requires IsConsensus([r0, r1], final)
    ensures forall k :: k in final <==> k in r0 && k in r1 && r0[k] == r1[k] != ""
    ensures forall k :: k in final ==> final[k] == r0[k]
  {
    forall k ensures (k in final <==> k in r0 && k in r1 && r0[k] == r1[k] != "") && (k in final ==> final[k] == r0[k]) {
      if k in r0 && k in r1 && r0[k] == r1[k] != "" {
        TwoAttemptsAgree(r0, r1, final, k);
      } else {
        TwoAttemptsDisagree(r0, r1, final, k);
      }
    }
  }

  /** Two one-or-none sequences that are not the same single value hold no value twice. */
  lemma NoRepeat(a: seq<string>, b: seq<string>)
    requires |a| <= 1 && |b| <= 1
    requires !(|a| == 1 && |b| == 1 && a[0] == b[0])
    ensures forall v :: Occurrences(a + b, v) <= 1
  {
    if |a| == 1 && |b| == 1 {
      assert multiset(a + b) == multiset{a[0], b[0]};
    } else {
      forall v ensures Occurrences(a + b, v) <= 1 {
        OccurrencesBound(a + b, v);
      }
    }
  }
}
