/** Recording admin log entries for actions on objects: the change
    message list `LogEntryAs` assembles, the action flag of each logging
    method, logging a validated form, and the text message of the older
    `UILogEntry`. */
module LogEntry {
  import opened Wrappers

  /** JSON values, as stored in the change message. */
  datatype Json =
    | JNull
    | JBool(b: bool)
    | JInt(i: int)
    | JStr(s: string)
    | JList(items: seq<Json>)
    | JObject(fields: map<string, Json>)

  /** The `message` argument of the logging methods. */
  datatype Message =
    | NoMessage                   // None
    | DictMessage(d: map<string, Json>)
    | ListMessage(items: seq<Json>)

  /** Python truthiness of the message. */
  predicate Truthy(m: Message) {
    match m
    case NoMessage => false
    case DictMessage(d) => |d| > 0
    case ListMessage(items) => |items| > 0
  }

  /** Django's action flags. */
  const Addition: int := 1
  const Change: int := 2
  const Deletion: int := 3

  /** What `LogEntry.objects.log_action` receives. */
  datatype Record = Record(userPk: int, objectPk: int, flag: int, changeMessage: seq<Json>)

  /** A `LogEntryAs`: the acting user and the keyword arguments given at
      construction. */
  datatype Logger = Logger(userPk: int, common: map<string, Json>)

  /** The change message: the common dictionary first (the list holding it
      is never empty, so it is there even when the dictionary is), then a
      dictionary message wrapped in a one-element list, or the items of a
      list message; a falsy message adds nothing. */
  function ChangeMessage(lg: Logger, message: Message): (r: seq<Json>)
    ensures |r| >= 1 && r[0] == JObject(lg.common)
    ensures !Truthy(message) ==> r == [JObject(lg.common)]
    ensures Truthy(message) && message.DictMessage? ==> r == [JObject(lg.common), JList([JObject(message.d)])]
    ensures Truthy(message) && message.ListMessage? ==> r == [JObject(lg.common)] + message.items
  {
    var base := [JObject(lg.common)];
    if !Truthy(message) then base
    else match message
      case DictMessage(d) => base + [JList([JObject(d)])]
      case ListMessage(items) => base + items
  }

  /** `log_action`. */
  function LogAction(lg: Logger, objectPk: int, flag: int, message: Message): (r: Record)
    ensures r.userPk == lg.userPk && r.objectPk == objectPk && r.flag == flag
    ensures r.changeMessage == ChangeMessage(lg, message)
  {
    Record(lg.userPk, objectPk, flag, ChangeMessage(lg, message))
  }

  function LogAddition(lg: Logger, objectPk: int, message: Message): (r: Record)
    ensures r.flag == Addition && r == LogAction(lg, objectPk, Addition, message)
  {
    LogAction(lg, objectPk, Addition, message)
  }

  function LogChange(lg: Logger, objectPk: int, message: Message): (r: Record)
    ensures r.flag == Change && r == LogAction(lg, objectPk, Change, message)
  {
    LogAction(lg, objectPk, Change, message)
  }

  function LogDeletion(lg: Logger, objectPk: int, message: Message): (r: Record)
    ensures r.flag == Deletion && r == LogAction(lg, objectPk, Deletion, message)
  {
    LogAction(lg, objectPk, Deletion, message)
  }

  datatype FormError = FormInvalid | FormsetsInvalid

  /** What logging a form needs: whether it is valid, the validity of each
      formset (None when no formsets are given), and the message list the
      admin's `construct_change_message` builds for it. */
  datatype Form = Form(valid: bool, formsets: Option<seq<bool>>, instancePk: int, changeList: seq<Json>)

  predicate AllValid(formsets: seq<bool>) {
    forall i :: 0 <= i < |formsets| ==> formsets[i]
  }

  /** `log_form_addition_or_change`: an invalid form, then invalid
      formsets, are refused; otherwise the change list is logged as an
      addition or a change. */
  function LogFormAdditionOrChange(lg: Logger, form: Form, wasAdding: bool): (r: Result<Record, FormError>)
    ensures !form.valid ==> r == Failure(FormInvalid)
    ensures form.valid && form.formsets.Some? && |form.formsets.value| > 0 && !AllValid(form.formsets.value)
            ==> r == Failure(FormsetsInvalid)
    ensures r.Success? <==> form.valid && (form.formsets.None? || AllValid(form.formsets.value))
    ensures r.Success? ==> r.value.userPk == lg.userPk && r.value.objectPk == form.instancePk
    ensures r.Success? ==> r.value.flag == (if wasAdding then Addition else Change)
    ensures r.Success? ==> r.value.changeMessage == [JObject(lg.common)] + form.changeList
  {
    if !form.valid then Failure(FormInvalid)
    else if form.formsets.Some? && |form.formsets.value| > 0 && !AllValid(form.formsets.value) then Failure(FormsetsInvalid)
    else
      var m := ListMessage(form.changeList);
      assert !Truthy(m) ==> form.changeList == [];
      assert [JObject(lg.common)] + [] == [JObject(lg.common)];
      if wasAdding then Success(LogAddition(lg, form.instancePk, m))
      else Success(LogChange(lg, form.instancePk, m))
  }

  /** The log entries the tests expect: an addition without a message, a
      form change naming the changed field, and a deletion. */
  lemma LoggedMessagesExample(userPk: int, groupPk: int, changed: Json)
    ensures var lg := Logger(userPk, map["ui" := JBool(true)]);
            var form := Form(true, None, groupPk, [JObject(map["changed" := changed])]);
            && LogAddition(lg, groupPk, NoMessage).changeMessage == [JObject(map["ui" := JBool(true)])]
            && LogFormAdditionOrChange(lg, form, false)
               == Success(Record(userPk, groupPk, Change,
                                 [JObject(map["ui" := JBool(true)]), JObject(map["changed" := changed])]))
            && LogDeletion(lg, groupPk, NoMessage).changeMessage == [JObject(map["ui" := JBool(true)])]
  {
    var lg := Logger(userPk, map["ui" := JBool(true)]);
    var form := Form(true, None, groupPk, [JObject(map["changed" := changed])]);
    var r := LogFormAdditionOrChange(lg, form, false);
    assert r.Success?;
    assert r.value.changeMessage == [JObject(lg.common)] + form.changeList;
    assert [JObject(lg.common)] + form.changeList == [JObject(lg.common), JObject(map["changed" := changed])];
    assert r.value == Record(userPk, groupPk, Change, [JObject(lg.common), JObject(map["changed" := changed])]);
  }

  // ---------------------------------------------------------------------
  // UILogEntry

  /** The translations of the two texts the summary uses: the
      `_('Changed %s.')` template already filled with the field list, and
      `_('No fields changed.')`. */
  datatype UITexts = UITexts(changedFmt: string -> string, noneChanged: string)

  /** The untranslated texts. */
  const English: UITexts := UITexts(lst => "Changed " + lst + ".", "No fields changed.")

  /** `construct_change_message(form)`: the changed fields named through
      `textList` (Django's `get_text_list` with "and") in the translated
      template; the translated "nothing changed" note when no field
      changed or when that filled template is empty. */
  function UIChangeSummary(changed: seq<string>, textList: seq<string> -> string, tr: UITexts): (r: string)
    ensures |changed| > 0 && tr.changedFmt(textList(changed)) != "" ==> r == tr.changedFmt(textList(changed))
    ensures |changed| == 0 || tr.changedFmt(textList(changed)) == "" ==> r == tr.noneChanged
  {
    var msg := if |changed| == 0 then "" else tr.changedFmt(textList(changed));
    if msg != "" then msg else tr.noneChanged
  }

  /** Both texts end in a full stop, whatever is filled in. */
  ghost predicate EndsInStop(tr: UITexts) {
    && tr.noneChanged != "" && tr.noneChanged[|tr.noneChanged| - 1] == '.'
    && forall lst :: tr.changedFmt(lst) != "" ==> tr.changedFmt(lst)[|tr.changedFmt(lst)| - 1] == '.'
  }

  /** The untranslated texts end in a full stop. */
  lemma EnglishEndsInStop()
    ensures EndsInStop(English)
  {
    forall lst | English.changedFmt(lst) != ""
      ensures English.changedFmt(lst)[|English.changedFmt(lst)| - 1] == '.'
    {
      assert English.changedFmt(lst) == "Changed " + lst + ".";
    }
  }

  /** `UILogEntry.log_change`: with a form, its summary is appended to the
      message, separated by a space only when the message is non-empty. */
  function UILogChangeMessage(message: string, summary: Option<string>): (r: string)
    ensures summary.None? ==> r == message
    ensures summary.Some? && message != "" ==> r == message + " " + summary.value
    ensures summary.Some? && message == "" ==> r == summary.value
  {
    match summary
    case None => message
    case Some(s) => if message != "" then message + " " + s else s
  }

  /** With a form, the logged message starts with the caller's message and
      ends with the form's summary, so it ends in a full stop whenever the
      translated texts do. */
  lemma UILogMessageEndsWithSummary(message: string, changed: seq<string>, textList: seq<string> -> string, tr: UITexts)
    ensures var s := UIChangeSummary(changed, textList, tr);
            var r := UILogChangeMessage(message, Some(s));
            && |message| <= |r| && r[..|message|] == message
            && |s| <= |r| && r[|r| - |s|..] == s
            && (EndsInStop(tr) ==> |message| < |r| && r[|r| - 1] == '.')
  {
    var s := UIChangeSummary(changed, textList, tr);
    var r := UILogChangeMessage(message, Some(s));
    if message != "" {
      assert r == message + (" " + s);
    }
    if EndsInStop(tr) {
      assert s != "" && s[|s| - 1] == '.';
      assert r[|r| - 1] == s[|s| - 1];
    }
  }

  /** The default message "UI" with a form that changed one field, in
      English. */
  lemma UILogChangeExample(textList: seq<string> -> string)
    requires textList(["name"]) == "name"
    ensures UILogChangeMessage("UI", Some(UIChangeSummary(["name"], textList, English))) == "UI Changed name."
  {
  }
}
