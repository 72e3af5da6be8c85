/** Dumping to a file and loading it again. dump_key_value_store opens without O_TRUNC, so a longer
    old file keeps its tail behind the dump. */
module DumpFiles {
  import opened Types
  import opened LogText
  import opened Listing

  /** The file after writing text from its start. */
  function WriteOver(prior: Text, text: Text): Text {
    if |prior| <= |text| then text else text + prior[|text|..]
  }

  /** Loading a dump of s into t gives t overridden by s, whatever the order of the lines, if the
      file was not longer than the dump before. */
  lemma DumpThenLoad(s: Variables, records: seq<Record>, prior: Text, t: Variables, key: Text, word: Text)
    requires ValidVariables(s) && IsListing(records) && AsMap(records) == s
    requires |prior| <= |Print(records)|
    ensures Load(WriteOver(prior, Print(records)), key, word, t) == Complete(t + s)
    ensures t == map[] ==> Load(WriteOver(prior, Print(records)), key, word, t) == Complete(s)
  {
    AsMapEntries(records);
    ReadPrinted(records, key, word);
    ApplyOverrides(t, records);
  }

  /** The length of the old file decides: dump-then-load works for all old contents of a given
      length exactly when that length is at most the dump's. */
  lemma DumpThenLoadExact(s: Variables, records: seq<Record>, n: nat)
    requires ValidVariables(s) && IsListing(records) && AsMap(records) == s
    ensures (forall prior: Text, t, key, word | |prior| == n ::
               Load(WriteOver(prior, Print(records)), key, word, t) == Complete(t + s))
            <==> n <= |Print(records)|
  {
    var text := Print(records);
    if n <= |text| {
      forall prior: Text, t, key, word | |prior| == n
        ensures Load(WriteOver(prior, text), key, word, t) == Complete(t + s)
      {
        DumpThenLoad(s, records, prior, t, key, word);
      }
    } else {
      var prior: Text := seq(n, _ => EQUALS);
      AsMapEntries(records);
      ReadPrintedThen(records, prior[|text|..], [], []);
      assert Fscanf(prior[|text|..], [], []) == Scanned([], [], prior[|text|..]);
      assert Load(WriteOver(prior, text), [], [], map[]).Refused?;
    }
  }
}
