/**
 * What the component shows and which buttons it enables, as functions of the
 * wallet state, the orchestrator state it reads and its `mode` property.
 */
module ViewModel {
  import opened Wrappers
  import opened Text

  /** The `mode` property; an omitted `mode` means `Full`. */
  datatype Mode = Full | DecryptOnly | NoReports

  function ModeOrDefault(mode: Option<Mode>): Mode {
    mode.GetOr(Full)
  }

  /** The panel below the submit form: the reports list or the activity log. */
  datatype Panel = ReportsList | ActivityLogPanel

  /** The screen the component renders. */
  datatype Screen =
    | ConnectWallet
    | NotDeployed
    | Main(submitForm: bool, lowerPanel: Panel)

  /**
   * Screen selection: without a wallet connection the connect screen; a
   * contract known not to be deployed (the flag false, not merely unknown) the not-deployed
   * screen; otherwise the main view, whose submit form is hidden in
   * `DecryptOnly` mode and whose reports list gives way to the activity log in
   * `NoReports` mode.
   */
  function SelectScreen(isConnected: bool, isDeployed: Option<bool>, mode: Option<Mode>): (s: Screen)
    ensures s == ConnectWallet <==> !isConnected
    ensures s == NotDeployed <==> isConnected && isDeployed == Some(false)
    ensures s.Main? <==> isConnected && (isDeployed == None || isDeployed == Some(true))
    ensures s.Main? ==> (s.submitForm <==> mode != Some(DecryptOnly))
    ensures s.Main? ==> (s.lowerPanel == ReportsList <==> mode != Some(NoReports))
    ensures s.Main? ==> (s.lowerPanel == ActivityLogPanel <==> mode == Some(NoReports))
  {
    if !isConnected then ConnectWallet
    else if isDeployed == Some(false) then NotDeployed
    else
      var m := ModeOrDefault(mode);
      assert isDeployed.Some? ==> isDeployed.value;
      Main(m != DecryptOnly, if m == NoReports then ActivityLogPanel else ReportsList)
  }

  /** Omitting `mode` renders exactly what `Full` renders. */
  lemma OmittedModeIsFull(isConnected: bool, isDeployed: Option<bool>)
    ensures SelectScreen(isConnected, isDeployed, None) == SelectScreen(isConnected, isDeployed, Some(Full))
  {
  }

  /** In every mode the main view shows the submit form or the reports list. */
  lemma MainShowsSomething(isDeployed: Option<bool>, mode: Option<Mode>)
    requires isDeployed != Some(false)
    ensures var s := SelectScreen(true, isDeployed, mode);
      s.Main? && (s.submitForm || s.lowerPanel == ReportsList)
  {
  }

  /**
   * The Submit button is disabled unless the orchestrator can submit, no
   * submission is in flight and the content is more than white space.
   */
  function SubmitDisabled(canSubmit: bool, isSubmitting: bool, content: string): (d: bool)
    ensures !d <==> canSubmit && !isSubmitting && exists k :: 0 <= k < |content| && !IsSpace(content[k])
  {
    !canSubmit || isSubmitting || Trim(content) == ""
  }

  /** A report as the reports list reads it. */
  datatype ReportView = ReportView(
    id: int,
    decryptedContent: Option<string>,
    decryptedSeverity: Option<int>)

  /**
   * A report's Decrypt button is disabled while any decryption is in flight
   * and once the report's content has been decrypted (even to "").
   */
  function DecryptDisabled(isDecrypting: bool, report: ReportView): bool {
    isDecrypting || report.decryptedContent.Some?
  }

  /**
   * A click on the Decrypt button of `report` asks the orchestrator to decrypt
   * that report's id; a click on a disabled button does nothing.
   */
  function DecryptClick(isDecrypting: bool, report: ReportView): Option<int> {
    if DecryptDisabled(isDecrypting, report) then None else Some(report.id)
  }

  /** The Decrypt button's label: "Decrypted" once the content is a non-empty string. */
  function DecryptLabel(report: ReportView): string {
    if report.decryptedContent.Some? && report.decryptedContent.value != "" then "Decrypted" else "Decrypt"
  }

  /** A button labelled "Decrypted" is always disabled. */
  lemma DecryptedLabelMeansDisabled(isDecrypting: bool, report: ReportView)
    requires DecryptLabel(report) == "Decrypted"
    ensures DecryptDisabled(isDecrypting, report)
  {
  }

  /** A click on a button captioned "Decrypted" requests nothing. */
  lemma DecryptedCaptionRequestsNothing(isDecrypting: bool, report: ReportView)
    requires DecryptLabel(report) == "Decrypted"
    ensures DecryptClick(isDecrypting, report) == None
  {
  }

  /**
   * Once any decrypted content has been merged into a report, whatever it is
   * and whether or not a decryption is in flight, its button requests nothing
   * again: each report is asked for at most once through its button.
   */
  lemma DecryptedReportRequestsNothing(isDecrypting: bool, report: ReportView, plain: string)
    ensures DecryptClick(isDecrypting, report.(decryptedContent := Some(plain))) == None
  {
  }

  /** While a decryption is in flight no button of the list issues a request. */
  lemma InFlightBlocksEveryReport(reports: seq<ReportView>)
    ensures forall i :: 0 <= i < |reports| ==> DecryptClick(true, reports[i]) == None
  {
  }

  /**
   * Every request a button issues is for that button's own report, which has
   * no decrypted content yet, at a time when no decryption is in flight.
   */
  lemma RequestIsForOwnUndecryptedReport(isDecrypting: bool, reports: seq<ReportView>, i: int, id: int)
    requires 0 <= i < |reports| && DecryptClick(isDecrypting, reports[i]) == Some(id)
    ensures id == reports[i].id && reports[i].decryptedContent == None && !isDecrypting
  {
  }

  /**
   * The converse of the caption lemma fails: a report whose content decrypted to "" keeps the
   * label "Decrypt" on a button that is disabled.
   */
  lemma EmptyDecryptionLabelledButDisabled(isDecrypting: bool, id: int, severity: Option<int>)
    ensures var report := ReportView(id, Some(""), severity);
      DecryptLabel(report) == "Decrypt" && DecryptDisabled(isDecrypting, report)
  {
  }
}
