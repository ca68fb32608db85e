/** The `FormData` a server action receives: an ordered list of named
    entries, each a string or a file. */
module Forms {
  import opened Common

  /** `FormDataEntryValue`: a string or a `File`. */
  datatype Entry = Text(text: string) | File

  datatype Field = Field(name: string, value: Entry)

  type FormData = seq<Field>

  predicate HasField(form: FormData, key: string) {
    exists i :: 0 <= i < |form| && form[i].name == key
  }

  /** `formData.get(key)`: the value of the first entry with that name, or
      `null` when there is none. */
  function Get(form: FormData, key: string): Option<Entry> {
    if form == [] then None
    else if form[0].name == key then Some(form[0].value)
    else Get(form[1..], key)
  }

  /** `get` finds nothing exactly when no entry has the name, and otherwise
      the value of the first entry that has it. */
  lemma {:induction false} GetFindsFirst(form: FormData, key: string)
    ensures Get(form, key).None? <==> !HasField(form, key)
    ensures Get(form, key).Some? ==> exists i :: (0 <= i < |form| && form[i] == Field(key, Get(form, key).value)
      && forall j :: 0 <= j < i ==> form[j].name != key)
  {
    if form != [] && form[0].name != key {
      GetFindsFirst(form[1..], key);
      assert forall i :: 1 <= i < |form| ==> form[i] == form[1..][i - 1];
    }
  }

  /** The text the host produces when a value is coerced to a string, as a
      template literal or `Date.parse` do: a file becomes `[object File]`. */
  function ToJsString(e: Entry): string {
    match e
    case Text(s) => s
    case File => "[object File]"
  }
}
