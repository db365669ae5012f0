/** Lists of strings that take a value once and never a blank one: routes, reasons, diagnostics. */
module UniqueLists {
  function AppendUnique(values: seq<string>, value: string): seq<string> {
    if value == "" || value in values then values else values + [value]
  }

  function AppendAll(values: seq<string>, more: seq<string>): seq<string>
    decreases |more|
  {
    if more == [] then values else AppendAll(AppendUnique(values, more[0]), more[1..])
  }

  ghost predicate NoRepeats(s: seq<string>) {
    forall i, j :: 0 <= i < j < |s| ==> s[i] != s[j]
  }

  /** Distinct and non-empty. */
  ghost predicate Clean(s: seq<string>) {
    NoRepeats(s) && forall i :: 0 <= i < |s| ==> s[i] != ""
  }

  lemma AppendUniqueClean(values: seq<string>, value: string)
    requires Clean(values)
    ensures Clean(AppendUnique(values, value))
    ensures forall v :: v in AppendUnique(values, value) <==> v in values || (v == value && v != "")
  {
  }

  lemma {:induction false} AppendAllClean(values: seq<string>, more: seq<string>)
    requires Clean(values)
    ensures Clean(AppendAll(values, more))
    ensures forall v :: v in AppendAll(values, more) <==> v in values || (v in more && v != "")
    decreases |more|
  {
    if more != [] {
      AppendUniqueClean(values, more[0]);
      AppendAllClean(AppendUnique(values, more[0]), more[1..]);
      assert forall v :: v in more <==> v == more[0] || v in more[1..];
    }
  }

  lemma {:induction false} AppendAllPrefix(values: seq<string>, more: seq<string>)
    ensures values <= AppendAll(values, more)
    decreases |more|
  {
    if more != [] {
      AppendAllPrefix(AppendUnique(values, more[0]), more[1..]);
    }
  }

  method AppendEach(values: seq<string>, more: seq<string>) returns (all: seq<string>)
    ensures all == AppendAll(values, more)
  {
    all := values;
    for i := 0 to |more|
      invariant AppendAll(all, more[i..]) == AppendAll(values, more)
    {
      assert more[i..][0] == more[i] && more[i..][1..] == more[i + 1..];
      all := AppendUnique(all, more[i]);
    }
  }
}
