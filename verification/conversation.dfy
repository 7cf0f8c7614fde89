/** The registration conversation around the team store: /start, the name
    prompt (get_fio), the confirmation (confirm_fio) and /cancel. Replies,
    keyboards and the per-user context are left to the bot framework; the
    state of one user's conversation is modelled as a value. */
module Conversation {
  import opened TeamStore
  import opened FullName

  /** ConversationHandler's states FIO and CONFIRM, plus the end of the
      conversation. AwaitingConfirmation carries the name kept in
      context.user_data. */
  datatype State = AwaitingName | AwaitingConfirmation(fio: string) | Ended

  /** The state after a step together with the table it leaves behind. */
  datatype Outcome = Outcome(state: State, store: Store)

  /** /start: a registered user is greeted and the conversation ends; anyone
      else is asked for a name. The table is only read. */
  function Start(st: Store, uid: int): (s: State)
    ensures s == Ended <==> exists i :: 0 <= i < |st.rows| && st.rows[i].userId == uid
    ensures s != Ended ==> s == AwaitingName
  {
    if GetUserInfo(st, uid).Some? then Ended else AwaitingName
  }

  /** get_fio: a name that passes the check is kept (stripped) for
      confirmation; otherwise the user is asked again. Whether the name goes
      on is stated through the characterization of the check: at least 5
      characters after stripping and two whitespace-separated words. */
  function SubmitName(text: string): (s: State)
    ensures s.AwaitingConfirmation? <==> |Strip(text)| >= 5 && HasTwoWords(text)
    ensures s.AwaitingConfirmation? ==> s.fio == Strip(text)
    ensures !s.AwaitingConfirmation? ==> s == AwaitingName
  {
    CheckFioAccepts(text);
    match CheckFio(text)
    case Accepted(fio) => AwaitingConfirmation(fio)
    case Rejected => AwaitingName
  }

  /** confirm_fio: on "yes" the kept name is handed to assign_random_team and
      the conversation ends; any other answer asks for the name again and
      leaves the table alone. A user registering for the first time is
      stored under the confirmed name in the team the assignment picks. */
  function Confirm(st: Store, uid: int, fio: string, yes: bool, draw: nat): (r: Outcome)
    requires Valid(st)
    ensures Valid(r.store)
    ensures yes ==> r.state == Ended && r.store == Assign(st, uid, fio, draw).store
    ensures yes && GetUserInfo(st, uid).None? ==>
      GetUserInfo(r.store, uid) == Some(UserInfo(fio, Assign(st, uid, fio, draw).team))
      && |r.store.rows| == |st.rows| + 1
    ensures yes ==> GetUserInfo(r.store, uid).Some?
    ensures yes ==> Start(r.store, uid) == Ended
    ensures !yes ==> r.state == AwaitingName && r.store == st
  {
    if yes then
      var a := Assign(st, uid, fio, draw);
      assert GetUserInfo(st, uid).None? ==>
        GetUserInfo(a.store, uid) == Some(UserInfo(fio, a.team))
        && |a.store.rows| == |st.rows| + 1 by {
        if GetUserInfo(st, uid).None? {
          AssignThenLookup(st, uid, fio, draw);
        }
      }
      Outcome(Ended, a.store)
    else Outcome(AwaitingName, st)
  }

  /** /cancel ends the conversation from any state: the parameter is the
      state the user was in, which the fallback handler ignores. */
  function Cancel(s: State): State
  {
    Ended
  }

  /** Every stored name passes the full-name check. */
  predicate NamesChecked(rows: seq<Registration>)
  {
    |rows| == 0 || (NamesChecked(rows[..|rows| - 1]) && CheckFio(rows[|rows| - 1].fio).Accepted?)
  }

  /** NamesChecked holds of a row's name wherever the row is. */
  lemma {:induction false} NamesCheckedMeans(rows: seq<Registration>, i: int)
    requires NamesChecked(rows) && 0 <= i < |rows|
    ensures CheckFio(rows[i].fio).Accepted?
  {
    if i < |rows| - 1 {
      NamesCheckedMeans(rows[..|rows| - 1], i);
    }
  }

  /** Names reach the table only through get_fio's check: confirming a name
      that get_fio accepted keeps every stored name a valid full name. */
  lemma ConfirmKeepsNamesChecked(st: Store, uid: int, text: string, draw: nat)
    requires Valid(st) && NamesChecked(st.rows)
    requires SubmitName(text).AwaitingConfirmation?
    ensures NamesChecked(Confirm(st, uid, SubmitName(text).fio, true, draw).store.rows)
  {
    var fio := SubmitName(text).fio;
    AcceptedNameIsValid(text);
    var r := Assign(st, uid, fio, draw);
    if GetUserInfo(st, uid).None? {
      var rows := r.store.rows;
      assert rows[..|rows| - 1] == st.rows;
    }
  }
}
