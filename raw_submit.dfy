/**
 * Extraction of question ids from raw form data: every submitted key of the
 * form `q<digits>` contributes its digit suffix, in submission order, and the
 * helper answers PHP `false` (here None) when no key has that form.
 */
module RawSubmit {
  import opened Wrappers

  /** One key/value pair of the submitted form data. The value is never inspected. */
  datatype Field = Field(key: string, value: string)

  predicate IsDigit(c: char) { '0' <= c <= '9' }

  /** A non-empty run of ASCII digits: the group `([0-9]+)`. */
  predicate IsDigits(s: string) {
    |s| > 0 && forall i :: 0 <= i < |s| ==> IsDigit(s[i])
  }

  /** The key matches `q` followed by digits and nothing else. */
  predicate IsIdKey(key: string) {
    |key| >= 1 && key[0] == 'q' && IsDigits(key[1..])
  }

  /**
   * The captured group of `^q([0-9]+)$`, read as a match of the whole key.
   * This is the reading the helper evidently intends; the rest of the model uses it.
   */
  function Capture(key: string): (r: Option<string>)
    ensures r.Some? <==> IsIdKey(key)
    ensures r.Some? ==> IsDigits(r.value) && "q" + r.value == key
  {
    if IsIdKey(key) then Some(key[1..]) else None
  }

  /**
   * The captured group of `^q([0-9]+)$` as PCRE evaluates it without the D
   * modifier: `$` also matches just before a final newline, so a key with one
   * trailing "\n" is accepted and the newline is dropped from the id.
   */
  function CaptureAsWritten(key: string): (r: Option<string>)
    ensures r.Some? ==> IsDigits(r.value)
    ensures (|key| == 0 || key[|key| - 1] != '\n') ==> r == Capture(key)
  {
    if IsIdKey(key) then Some(key[1..])
    else if |key| >= 1 && key[|key| - 1] == '\n' && IsIdKey(key[..|key| - 1]) then Some(key[1..|key| - 1])
    else None
  }

  /** The as-written pattern accepts "q7\n" and yields "7", which does not rebuild the key. */
  lemma TrailingNewlineAccepted()
    ensures CaptureAsWritten("q7\n") == Some("7")
    ensures "q" + CaptureAsWritten("q7\n").value != "q7\n"
    ensures Capture("q7\n") == None
  {
    var key := "q7\n";
    assert key[..|key| - 1] == "q7";
    assert "q7"[1..] == "7";
    assert IsDigits("7");
    assert !IsDigit(key[2]);
    assert !IsDigits(key[1..]);
    assert key[1..|key| - 1] == "7";
  }

  /** The ids the helper returns for `fields`, in submission order. */
  function Ids(fields: seq<Field>): (ids: seq<string>)
    ensures |ids| <= |fields|
    ensures forall id :: id in ids ==> IsDigits(id) && exists f :: f in fields && "q" + id == f.key
    ensures ids == [] <==> forall f :: f in fields ==> !IsIdKey(f.key)
  {
    if fields == [] then []
    else
      var init := fields[..|fields| - 1];
      var last := fields[|fields| - 1];
      assert forall f :: f in fields <==> f in init || f == last;
      match Capture(last.key)
      case Some(id) => Ids(init) + [id]
      case None => Ids(init)
  }

  /** Submission order is kept: the ids of a concatenation are the concatenated ids. */
  lemma {:induction false} IdsAppend(a: seq<Field>, b: seq<Field>)
    ensures Ids(a + b) == Ids(a) + Ids(b)
    decreases |b|
  {
    if b == [] {
      assert a + b == a;
    } else {
      var b' := b[..|b| - 1];
      assert (a + b)[..|a + b| - 1] == a + b';
      assert (a + b)[|a + b| - 1] == b[|b| - 1];
      IdsAppend(a, b');
    }
  }

  /** No id key is lost: each one contributes exactly its digit suffix. */
  lemma {:induction false} IdKeyContributes(fields: seq<Field>, i: nat)
    requires i < |fields| && IsIdKey(fields[i].key)
    ensures fields[i].key[1..] in Ids(fields)
  {
    var f := fields[i];
    assert fields == fields[..i] + ([f] + fields[i + 1..]);
    IdsAppend(fields[..i], [f] + fields[i + 1..]);
    IdsAppend([f], fields[i + 1..]);
    assert [f][..0] == [];
    assert Ids([f]) == [f.key[1..]];
  }

  /**
   * mod_studentquiz_helper_get_ids_by_raw_submit: walks the pairs in order and
   * keeps the digit suffix of every `q<digits>` key; None when there is none.
   */
  method GetIdsByRawSubmit(rawdata: seq<Field>) returns (r: Option<seq<string>>)
    ensures r.None? <==> forall i :: 0 <= i < |rawdata| ==> !IsIdKey(rawdata[i].key)
    ensures r.Some? ==> r.value == Ids(rawdata) && r.value != []
  {
    var ids: seq<string> := [];
    var i := 0;
    while i < |rawdata|
      invariant 0 <= i <= |rawdata|
      invariant ids == Ids(rawdata[..i])
    {
      assert rawdata[..i + 1][..i] == rawdata[..i];
      match Capture(rawdata[i].key) {
        case Some(id) => ids := ids + [id];
        case None =>
      }
      i := i + 1;
    }
    assert rawdata[..i] == rawdata;
    if |ids| == 0 {
      r := None;
    } else {
      r := Some(ids);
    }
  }
}
