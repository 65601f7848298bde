/** `Parameters`: a dictionary of request parameters whose indexer reads
    with `TryGetValue` and writes with `Add`. */
module RequestParameters {
  import opened Common
  import Dictionary

  /** The message `Dictionary.Add` throws with on a repeated key. */
  const DuplicateKey: Exception := ArgumentException("An item with the same key has already been added.")

  /** `Dictionary.Add` on entries: a new key goes last; a present key, even
      with the same value, throws and changes nothing. */
  function AddEntry(d: Dictionary.Entries, name: string, value: string): Result<Dictionary.Entries>
  {
    if Dictionary.HasKey(d, name) then Threw(DuplicateKey) else Ok(d + [(name, value)])
  }

  /** A fresh name is added with its value and every other name keeps its
      value; a present name is refused. */
  lemma AddEntrySpec(d: Dictionary.Entries, name: string, value: string)
    requires Dictionary.Valid(d)
    ensures AddEntry(d, name, value).Threw? <==> Dictionary.Get(d, name).Some?
    ensures AddEntry(d, name, value).Ok? ==>
      var r := AddEntry(d, name, value).value;
      Dictionary.Valid(r)
      && Dictionary.Get(r, name) == Some(value)
      && forall k :: k != name ==> Dictionary.Get(r, k) == Dictionary.Get(d, k)
  {
    if !Dictionary.HasKey(d, name) {
      var r := d + [(name, value)];
      assert Dictionary.Put(d, name, value) == r;
      Dictionary.PutGet(d, name, value);
    }
  }

  class Parameters {
    var entries: Dictionary.Entries

    ghost predicate Valid()
      reads this
    {
      Dictionary.Valid(entries)
    }

    constructor ()
      ensures Valid() && entries == []
    {
      entries := [];
    }

    /** `TryGetValue`. */
    method TryGetValue(name: string) returns (found: bool, value: Option<string>)
      requires Valid()
      ensures found <==> Dictionary.HasKey(entries, name)
      ensures found ==> value.Some? && (name, value.value) in entries
      ensures !found ==> value == None
    {
      value := Dictionary.Get(entries, name);
      found := value.Some?;
    }

    /** The indexer's getter: the stored value, or null for an absent name.
        The two flags are ignored. */
    method Get(parameterName: string, urlParameter: Option<bool>, bodyParameter: Option<bool>) returns (r: Option<string>)
      requires Valid()
      ensures r.None? <==> !Dictionary.HasKey(entries, parameterName)
      ensures r.Some? ==> (parameterName, r.value) in entries
    {
      var _, value := TryGetValue(parameterName);
      r := value;
    }

    /** `Add`: appends a fresh name; a present one throws and changes
        nothing. */
    method Add(name: string, value: string) returns (outcome: Outcome)
      requires Valid()
      modifies this
      ensures Valid()
      ensures old(Dictionary.HasKey(entries, name)) ==> outcome == Failed(DuplicateKey) && entries == old(entries)
      ensures !old(Dictionary.HasKey(entries, name)) ==> outcome == Completed && entries == old(entries) + [(name, value)]
    {
      match AddEntry(entries, name, value) {
        case Threw(e) =>
          outcome := Failed(e);
        case Ok(r) =>
          AddEntrySpec(entries, name, value);
          entries := r;
          outcome := Completed;
      }
    }

    /** The indexer's setter: `Add`, whatever the flags. */
    method Set(parameterName: string, value: string, urlParameter: Option<bool>, bodyParameter: Option<bool>) returns (outcome: Outcome)
      requires Valid()
      modifies this
      ensures Valid()
      ensures old(Dictionary.HasKey(entries, parameterName)) ==> outcome == Failed(DuplicateKey) && entries == old(entries)
      ensures !old(Dictionary.HasKey(entries, parameterName)) ==> outcome == Completed && entries == old(entries) + [(parameterName, value)]
    {
      outcome := Add(parameterName, value);
    }
  }
}
