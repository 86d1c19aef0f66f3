/**
 * Activity-log entries and the rules by which a status message is classified
 * into one entry.
 */
module ActivityLog {
  import opened Wrappers
  import opened Text

  /** The `type` of an activity-log entry. */
  datatype EntryKind = ReportSubmit | Error | Decrypt | Info

  /** One activity-log entry: `{ type, title, details }`. */
  datatype Entry = Entry(kind: EntryKind, title: string, details: string)

  const SuccessWord := "successfully"
  const FailedWord := "failed"
  const ErrorWord := "error"
  const DecryptWord := "decrypt"

  /** Title of the entry logged when the Submit button is clicked. */
  const SubmitClickTitle := "Submit Encrypted Report"

  /**
   * The kind of entry a status message is logged as. The tests are tried in
   * order: a case-sensitive "successfully", then "failed" or "error" in any
   * case, then "decrypt" in any case; a message matching none is `Info`.
   */
  function Classify(m: string): (k: EntryKind)
    ensures k == ReportSubmit <==> HasSubstring(m, SuccessWord)
    ensures k == Error <==>
      !HasSubstring(m, SuccessWord) &&
      (HasSubstringIgnoringCase(m, FailedWord) || HasSubstringIgnoringCase(m, ErrorWord))
    ensures k == Decrypt <==>
      !HasSubstring(m, SuccessWord) &&
      !HasSubstringIgnoringCase(m, FailedWord) && !HasSubstringIgnoringCase(m, ErrorWord) &&
      HasSubstringIgnoringCase(m, DecryptWord)
    ensures k == Info <==>
      !HasSubstring(m, SuccessWord) &&
      !HasSubstringIgnoringCase(m, FailedWord) && !HasSubstringIgnoringCase(m, ErrorWord) &&
      !HasSubstringIgnoringCase(m, DecryptWord)
  {
    if Contains(m, SuccessWord) then ReportSubmit
    else if ContainsLowered(m, FailedWord) || ContainsLowered(m, ErrorWord) then Error
    else if ContainsLowered(m, DecryptWord) then Decrypt
    else Info
  }

  /** The title the message mirror gives each kind of entry. */
  function Title(k: EntryKind): (t: string)
    ensures t != SubmitClickTitle
  {
    match k
    case ReportSubmit => "Report Submitted"
    case Error => "Operation Failed"
    case Decrypt => "FHEVM Decryption"
    case Info => "Status Update"
  }

  /** The entry the message mirror appends for message `m`. */
  function MirrorEntry(m: string): (e: Entry)
    ensures e.details == m && e.kind == Classify(m) && e.title != SubmitClickTitle
  {
    var k := Classify(m);
    Entry(k, Title(k), m)
  }

  /** The entry appended when Submit is clicked with severity `severity`. */
  function ClickEntry(severity: int): (e: Entry)
    ensures e.kind == ReportSubmit && e.title == SubmitClickTitle
    ensures |e.details| > |"severity="| && e.details[..|"severity="|] == "severity="
  {
    Entry(ReportSubmit, SubmitClickTitle, "severity=" + IntString(severity))
  }

  /** The severity a click entry records can be read back from its details. */
  lemma ClickEntryRecordsSeverity(severity: int)
    ensures ParseInt(ClickEntry(severity).details[|"severity="|..]) == Some(severity)
  {
    assert ClickEntry(severity).details[|"severity="|..] == IntString(severity);
    IntStringRoundTrip(severity);
  }

  /** Click entries are told apart from mirrored messages by their title. */
  predicate IsClickEntry(e: Entry) {
    e.title == SubmitClickTitle
  }

  /** Every entry is a click entry or the mirror entry of a non-empty message. */
  predicate WellFormed(log: seq<Entry>) {
    forall i :: 0 <= i < |log| ==>
      (IsClickEntry(log[i]) && log[i].kind == ReportSubmit) ||
      (log[i].details != "" && log[i] == MirrorEntry(log[i].details))
  }

  /** Appending the mirror entry of a non-empty message keeps a log well formed. */
  lemma AppendKeepsWellFormed(log: seq<Entry>, m: string)
    requires WellFormed(log) && m != ""
    ensures WellFormed(log + [MirrorEntry(m)])
  {
  }

  /** Appending a click entry keeps a log well formed. */
  lemma ClickKeepsWellFormed(log: seq<Entry>, severity: int)
    requires WellFormed(log)
    ensures WellFormed(log + [ClickEntry(severity)])
  {
  }

  /** The messages the mirror has logged, oldest first (click entries skipped). */
  function MirroredMessages(log: seq<Entry>): (ms: seq<string>)
    ensures |ms| <= |log|
  {
    if log == [] then []
    else
      var init := MirroredMessages(log[..|log| - 1]);
      if IsClickEntry(log[|log| - 1]) then init else init + [log[|log| - 1].details]
  }

  /** The most recently mirrored message, or "" when none has been. */
  function LastMirrored(log: seq<Entry>): string {
    var ms := MirroredMessages(log);
    if ms == [] then "" else ms[|ms| - 1]
  }

  /** No message is directly followed by the same message. */
  predicate NoAdjacentRepeats(ms: seq<string>) {
    forall i :: 0 <= i < |ms| - 1 ==> ms[i] != ms[i + 1]
  }

  /** Appending an entry extends the mirrored messages by its details, unless it is a click. */
  lemma {:induction false} MirroredAppend(log: seq<Entry>, e: Entry)
    ensures MirroredMessages(log + [e]) ==
      if IsClickEntry(e) then MirroredMessages(log) else MirroredMessages(log) + [e.details]
  {
    assert (log + [e])[..|log|] == log;
  }

  /** Appending a message different from the last mirrored one keeps repeats out. */
  lemma {:induction false} AppendKeepsNoRepeats(log: seq<Entry>, m: string)
    requires NoAdjacentRepeats(MirroredMessages(log))
    requires m != LastMirrored(log)
    ensures NoAdjacentRepeats(MirroredMessages(log + [MirrorEntry(m)]))
    ensures LastMirrored(log + [MirrorEntry(m)]) == m
  {
    MirroredAppend(log, MirrorEntry(m));
  }

  /** A click entry changes neither the mirrored messages nor the last one. */
  lemma {:induction false} ClickKeepsMirrored(log: seq<Entry>, severity: int)
    ensures MirroredMessages(log + [ClickEntry(severity)]) == MirroredMessages(log)
    ensures LastMirrored(log + [ClickEntry(severity)]) == LastMirrored(log)
  {
    MirroredAppend(log, ClickEntry(severity));
  }
}
