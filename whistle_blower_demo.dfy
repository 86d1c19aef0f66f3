/**
 * The component's own state: the last status message it has seen, the
 * activity log it appends to, and the report form's two fields.
 */
module WhistleBlowerDemo {
  import opened Wrappers
  import opened Text
  import opened ActivityLog
  import opened ViewModel

  /** The form's initial content and severity, restored after a successful submission. */
  const InitialContent := ""
  const InitialSeverity := 3

  /** The arguments of one `submitReport(content, severity)` call. */
  datatype SubmitCall = SubmitCall(content: string, severity: int)

  /** The component's state as a value. */
  datatype MirrorState = MirrorState(lastMessage: string, log: seq<Entry>, content: string, severity: int)

  /** The state on first render. */
  const Initial := MirrorState("", [], InitialContent, InitialSeverity)

  /**
   * The log holds only click entries and mirror entries of non-empty
   * messages, the remembered message is the last one mirrored, and no message
   * is mirrored twice in a row.
   */
  predicate Consistent(st: MirrorState) {
    WellFormed(st.log) &&
    st.lastMessage == LastMirrored(st.log) &&
    NoAdjacentRepeats(MirroredMessages(st.log))
  }

  /** One run of the message-mirror effect on the state, for the orchestrator's `message`. */
  function Mirror(st: MirrorState, message: Option<string>): MirrorState {
    var m := message.GetOr("");
    if m == "" || m == st.lastMessage then st
    else
      var k := Classify(m);
      var log := st.log + [Entry(k, Title(k), m)];
      if k == ReportSubmit then MirrorState(m, log, InitialContent, InitialSeverity)
      else st.(lastMessage := m, log := log)
  }

  /** The effect run once for each message of `messages`, in order. */
  function MirrorAll(st: MirrorState, messages: seq<Option<string>>): MirrorState
    decreases |messages|
  {
    if messages == [] then st else MirrorAll(Mirror(st, messages[0]), messages[1..])
  }

  /**
   * The messages a run logs, starting after `last`: absent and empty ones and
   * each one equal to the message before it are dropped.
   */
  function Fresh(last: string, messages: seq<Option<string>>): seq<string>
    decreases |messages|
  {
    if messages == [] then []
    else
      var m := messages[0].GetOr("");
      if m == "" || m == last then Fresh(last, messages[1..]) else [m] + Fresh(m, messages[1..])
  }

  /** The mirror entries of `ms`, one per message. */
  function MirrorEntries(ms: seq<string>): (es: seq<Entry>)
    ensures |es| == |ms|
  {
    if ms == [] then [] else [MirrorEntry(ms[0])] + MirrorEntries(ms[1..])
  }

  /** The state is left exactly as it was iff the message is absent, empty or the last one. */
  lemma MirrorSkips(st: MirrorState, message: Option<string>)
    ensures var m := message.GetOr("");
      Mirror(st, message) == st <==> m == "" || m == st.lastMessage
  {
    var m := message.GetOr("");
    if m != "" && m != st.lastMessage {
      assert |Mirror(st, message).log| == |st.log| + 1;
    }
  }

  /**
   * Any other message is remembered and logged as exactly one entry of its
   * class, and it resets the form exactly when it is a success message.
   */
  lemma MirrorLogsNewMessage(st: MirrorState, m: string)
    requires m != "" && m != st.lastMessage
    ensures var next := Mirror(st, Some(m));
      next.lastMessage == m &&
      next.log == st.log + [MirrorEntry(m)] &&
      next.log[|next.log| - 1].details == m &&
      (Classify(m) == ReportSubmit ==>
         next.content == InitialContent && next.severity == InitialSeverity) &&
      (Classify(m) != ReportSubmit ==>
         next.content == st.content && next.severity == st.severity)
  {
  }

  /** The reset restores the form's state on first render. */
  lemma SuccessRestoresInitialForm(st: MirrorState, m: string)
    requires m != "" && m != st.lastMessage && HasSubstring(m, SuccessWord)
    ensures Mirror(st, Some(m)).content == Initial.content
    ensures Mirror(st, Some(m)).severity == Initial.severity
  {
  }

  /** Delivering the same message twice logs it once. */
  lemma MirrorIdempotent(st: MirrorState, message: Option<string>)
    ensures Mirror(Mirror(st, message), message) == Mirror(st, message)
  {
  }

  lemma MirrorKeepsConsistent(st: MirrorState, message: Option<string>)
    requires Consistent(st)
    ensures Consistent(Mirror(st, message))
  {
    var m := message.GetOr("");
    if m != "" && m != st.lastMessage {
      AppendKeepsNoRepeats(st.log, m);
      AppendKeepsWellFormed(st.log, m);
    }
  }

  lemma InitialConsistent()
    ensures Consistent(Initial)
  {
  }

  /** No run of messages breaks the invariant. */
  lemma {:induction false} MirrorAllKeepsConsistent(st: MirrorState, messages: seq<Option<string>>)
    requires Consistent(st)
    ensures Consistent(MirrorAll(st, messages))
    decreases |messages|
  {
    if messages != [] {
      MirrorKeepsConsistent(st, messages[0]);
      MirrorAllKeepsConsistent(Mirror(st, messages[0]), messages[1..]);
    }
  }

  /**
   * A run only appends to the log: one mirror entry per fresh message, in
   * order, and it ends remembering the last fresh message.
   */
  lemma {:induction false} MirrorAllAppends(st: MirrorState, messages: seq<Option<string>>)
    ensures var kept := Fresh(st.lastMessage, messages);
      MirrorAll(st, messages).log == st.log + MirrorEntries(kept) &&
      MirrorAll(st, messages).lastMessage == if kept == [] then st.lastMessage else kept[|kept| - 1]
    decreases |messages|
  {
    if messages != [] {
      var m := messages[0].GetOr("");
      var next := Mirror(st, messages[0]);
      MirrorSkips(st, messages[0]);
      MirrorAllAppends(next, messages[1..]);
      if m != "" && m != st.lastMessage {
        MirrorLogsNewMessage(st, m);
        assert messages[0] == Some(m);
        var rest := Fresh(m, messages[1..]);
        assert MirrorEntries([m] + rest) == [MirrorEntry(m)] + MirrorEntries(rest);
      }
    }
  }

  class Demo {
    /** The last status message the effect has seen (a ref, initially ""). */
    var lastMessage: string
    /** The entries appended through `addLog`, oldest first. */
    var log: seq<Entry>
    /** The report text being typed. */
    var content: string
    /** The severity chosen on the slider. */
    var severity: int

    function State(): MirrorState
      reads this
    {
      MirrorState(lastMessage, log, content, severity)
    }

    ghost predicate Valid()
      reads this
    {
      Consistent(State())
    }

    constructor ()
      ensures Valid() && State() == Initial
    {
      lastMessage := "";
      log := [];
      content := InitialContent;
      severity := InitialSeverity;
    }

    /**
     * The effect that mirrors the orchestrator's `message` into the log; see
     * `Mirror` and the lemmas about it.
     */
    method OnMessage(message: Option<string>)
      requires Valid()
      modifies this
      ensures Valid()
      ensures State() == Mirror(old(State()), message)
    {
      MirrorKeepsConsistent(State(), message);
      var m := message.GetOr("");
      if m == "" || m == lastMessage {
        return;
      }
      lastMessage := m;
      if Contains(m, SuccessWord) {
        log := log + [Entry(ReportSubmit, "Report Submitted", m)];
        content := "";
        severity := 3;
      } else if ContainsLowered(m, FailedWord) || ContainsLowered(m, ErrorWord) {
        log := log + [Entry(Error, "Operation Failed", m)];
      } else if ContainsLowered(m, DecryptWord) {
        log := log + [Entry(Decrypt, "FHEVM Decryption", m)];
      } else if m != "" {
        // the last test always holds: an empty message returned above
        log := log + [Entry(Info, "Status Update", m)];
      }
    }

    /** Typing into the report text area, which is disabled while a submission is in flight. */
    method EditContent(isSubmitting: bool, value: string)
      requires Valid()
      modifies this
      ensures Valid()
      ensures content == if isSubmitting then old(content) else value
      ensures lastMessage == old(lastMessage) && log == old(log) && severity == old(severity)
    {
      if !isSubmitting {
        content := value;
      }
    }

    /**
     * Moving the severity slider, which yields the chosen number; the slider
     * is disabled while a submission is in flight.
     */
    method EditSeverity(isSubmitting: bool, value: int)
      requires Valid()
      modifies this
      ensures Valid()
      ensures severity == if isSubmitting then old(severity) else value
      ensures lastMessage == old(lastMessage) && log == old(log) && content == old(content)
    {
      if !isSubmitting {
        severity := value;
      }
    }

    /**
     * A click on Submit. While the button is disabled nothing happens. When
     * it is enabled, one `report_submit` entry recording the severity is
     * logged and `submitReport` is called with the form's content (untrimmed)
     * and severity. The form itself is left as it is.
     */
    method ClickSubmit(canSubmit: bool, isSubmitting: bool) returns (call: Option<SubmitCall>)
      requires Valid()
      modifies this
      ensures Valid()
      ensures call.Some? <==> !SubmitDisabled(canSubmit, isSubmitting, content)
      ensures call.Some? ==> call.value == SubmitCall(content, severity)
      ensures log == if call.Some? then old(log) + [ClickEntry(severity)] else old(log)
      ensures MirroredMessages(log) == old(MirroredMessages(log))
      ensures lastMessage == old(lastMessage) && content == old(content) && severity == old(severity)
    {
      if SubmitDisabled(canSubmit, isSubmitting, content) {
        return None;
      }
      ClickKeepsMirrored(log, severity);
      ClickKeepsWellFormed(log, severity);
      log := log + [Entry(ReportSubmit, SubmitClickTitle, "severity=" + IntString(severity))];
      call := Some(SubmitCall(content, severity));
    }
  }

  /** A submission from a fresh form logs one click entry and calls `submitReport` with the form. */
  method SubmitScenario(report: string)
    requires !AllSpace(report)
  {
    var d := new Demo();
    d.EditContent(false, report);
    d.EditSeverity(false, 4);
    var call := d.ClickSubmit(true, false);
    assert call == Some(SubmitCall(report, 4));
    assert d.log == [ClickEntry(4)];
  }

  /**
   * The success message that follows resets the form; the same message again
   * and then no message log nothing more.
   */
  method SuccessScenario(success: string)
    requires HasSubstring(success, SuccessWord)
  {
    var d := new Demo();
    d.EditContent(false, "draft");
    MirrorLogsNewMessage(d.State(), success);
    d.OnMessage(Some(success));
    assert d.content == "" && d.severity == 3 && d.log == [MirrorEntry(success)];
    MirrorSkips(d.State(), Some(success));
    d.OnMessage(Some(success));
    MirrorSkips(d.State(), None);
    d.OnMessage(None);
    assert d.log == [MirrorEntry(success)];
  }

  /** Two enabled clicks at the same severity log two identical entries in a row. */
  method RepeatedClickScenario(report: string)
    requires !AllSpace(report)
  {
    var d := new Demo();
    d.EditContent(false, report);
    var first := d.ClickSubmit(true, false);
    var second := d.ClickSubmit(true, false);
    assert first.Some? && second.Some?;
    assert |d.log| == 2 && d.log[0] == d.log[1];
  }
}
