/**
  The notes serialiser of report_generator.py: the accumulated `report_data` map is turned
  into the text handed to the report-writing prompt, one "Label: value" block per field that
  has content, in the map's order.
 */
module ReportGenerator {
  import opened Text
  import opened PyDict

  /** `value and value.strip()`: the value is non-empty and not only whitespace. */
  predicate HasContent(value: string) {
    value != "" && Strip(value) != ""
  }

  /** A value is skipped exactly when every character of it is whitespace (the empty value included). */
  lemma HasContentIffNotAllSpace(value: string)
    ensures HasContent(value) <==> !AllSpace(value)
  {
    StripEmptyIffAllSpace(value);
  }

  /** `key.replace('_', ' ').title()`: the label a field is printed under. It is as long as the
      key and has no underscore left. */
  function Label(key: string): (r: string)
    ensures |r| == |key|
    ensures '_' !in r
  {
    var spaced := ReplaceAll(key, "_", " ");
    ReplaceCharLength(key, '_', ' ');
    ReplaceRemovesChar(key, '_', " ");
    TitleKeepsNonLetterOut(spaced, '_');
    Title(spaced)
  }

  /** Up to letter case, the label is the key with each '_' turned into a space. */
  lemma LabelUpToCase(key: string)
    ensures |Label(key)| == |key|
    ensures forall i :: 0 <= i < |key| ==>
      ToLowerChar(Label(key)[i]) == if key[i] == '_' then ' ' else ToLowerChar(key[i])
  {
    var spaced := ReplaceAll(key, "_", " ");
    ReplaceCharAt(key, '_', ' ');
    LowerTitle(spaced);
    assert Lower(Label(key)) == Lower(spaced);
    forall i | 0 <= i < |key|
      ensures ToLowerChar(Label(key)[i]) == if key[i] == '_' then ' ' else ToLowerChar(key[i])
    {
      assert Lower(Label(key))[i] == Lower(spaced)[i];
    }
  }

  /** `f"{label}: {value}\n\n"` for one field. */
  function EntryText(e: Entry): string {
    Label(e.key) + ": " + e.value + "\n\n"
  }

  /** What one field contributes: its block when it has content, nothing otherwise. */
  function Block(e: Entry): string {
    if HasContent(e.value) then EntryText(e) else ""
  }

  /** The `formatted_data` loop: each field with content contributes its block, in map order.
      The text is empty exactly when no field has content. */
  function FormatNotes(data: Dict): (r: string)
    ensures r == "" <==> forall i :: 0 <= i < |data| ==> !HasContent(data[i].value)
  {
    if |data| == 0 then ""
    else
      var rest := FormatNotes(data[1..]);
      assert forall i :: 1 <= i < |data| ==> data[i] == data[1..][i - 1];
      Block(data[0]) + rest
  }

  lemma FormatNotesCons(data: Dict)
    requires |data| > 0
    ensures FormatNotes(data) == Block(data[0]) + FormatNotes(data[1..])
  {
  }

  /** The fields that have content, in map order. */
  function Kept(data: Dict): (k: Dict)
    ensures forall e :: e in k <==> e in data && HasContent(e.value)
    ensures |k| <= |data|
  {
    if |data| == 0 then []
    else if HasContent(data[0].value) then [data[0]] + Kept(data[1..])
    else Kept(data[1..])
  }

  /** The blocks of the given entries, one after the other. */
  function ConcatBlocks(es: Dict): string {
    if |es| == 0 then "" else EntryText(es[0]) + ConcatBlocks(es[1..])
  }

  /** The notes are the blocks of exactly the fields with content, in map order. */
  lemma {:induction false} FormatNotesIsKeptBlocks(data: Dict)
    ensures FormatNotes(data) == ConcatBlocks(Kept(data))
  {
    if |data| > 0 {
      FormatNotesIsKeptBlocks(data[1..]);
      if HasContent(data[0].value) {
        assert ([data[0]] + Kept(data[1..]))[1..] == Kept(data[1..]);
      }
    }
  }

  /** Serialising a map split in two is serialising each half, first half first. */
  lemma {:induction false} FormatNotesAppend(a: Dict, b: Dict)
    ensures FormatNotes(a + b) == FormatNotes(a) + FormatNotes(b)
  {
    ConcatShape(a, b);
    if |a| > 0 {
      FormatNotesAppend(a[1..], b);
      FormatNotesCons(a + b);
      FormatNotesCons(a);
      ConcatAssoc(Block(a[0]), FormatNotes(a[1..]), FormatNotes(b));
    }
  }
}
