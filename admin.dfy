/** The Action admin (tracker_app/admin.py): what saving a change form does
    to the Action, and which Actions the admin list shows.

    The request contributes its user; the form contributes the cleaned
    `status` and `update` values; building the admin change URL is done by
    Django's `reverse` and `build_absolute_uri`, which this model receives as
    `changeUrl` (`None` when building it raised). The mail is returned, not
    sent. */
module Admin {
  import opened Wrappers
  import opened Text
  import opened Seqs
  import opened Models

  /** `form.cleaned_data`: `None` for a key that is absent. */
  datatype CleanedData = CleanedData(status: Option<Status>, update: Option<string>, updateGa: Option<string>)

  /** The arguments of the `send_mail` call. */
  datatype Mail = Mail(subject: string, message: string, fromEmail: string,
                       recipients: seq<string>, failSilently: bool)

  const ApproverAddress := "superuser@meathcoco.ie"
  const ReviewPlaceholder := "(open admin and review)"

  /** `strip_tags(cleaned update or "").strip()`. */
  function PlainUpdateText(update: Option<string>): string {
    Strip(StripTags(update.GetOr([])))
  }

  /** The status `save_model` leaves: an explicit COMPLETED choice keeps the
      object's status; otherwise the update text decides. */
  function StatusAfterSave(selected: Option<Status>, current: Status, update: Option<string>): Status {
    if selected == Some(Completed) then current
    else if PlainUpdateText(update) != [] then InProgress
    else NotStarted
  }

  /** The link put in the mail; a failure to build it falls back to a fixed text. */
  function ReviewLink(changeUrl: Option<string>): (r: string)
    ensures changeUrl.None? ==> r == ReviewPlaceholder
    ensures changeUrl.Some? ==> r == changeUrl.value
  {
    changeUrl.GetOr(ReviewPlaceholder)
  }

  function ApprovalMail(title: string, username: string, link: string, fromEmail: string): Mail {
    Mail("Approval needed: \"" + title + "\" was updated",
         "User " + username + " updated the action \"" + title + "\".\n" +
         "It requires approval.\n\n" +
         "Open: " + link,
         fromEmail, [ApproverAddress], true)
  }

  /** `ActionAdmin.save_model`. */
  method SaveModel(obj: Action, user: User, form: CleanedData, change: bool,
                   changeUrl: Option<string>, fromEmail: string)
    returns (mail: Option<Mail>)
    modifies obj`createdBy, obj`updatedBy, obj`status, obj`isApproved, obj`isProgress
    ensures obj.createdBy == if !change && old(obj.createdBy) == None then Some(user) else old(obj.createdBy)
    ensures obj.updatedBy == Some(user)
    ensures obj.status == StatusAfterSave(form.status, old(obj.status), form.update)
    ensures obj.isApproved == user.isSuperuser
    ensures obj.isProgress == IsProgress(obj.update)
    ensures mail.Some? <==> !user.isSuperuser
    ensures mail.Some? ==> mail.value == ApprovalMail(obj.title, user.username, ReviewLink(changeUrl), fromEmail)
  {
    var isSuper := user.isSuperuser;
    var selected := form.status;
    var plain := PlainUpdateText(form.update);
    var status := obj.status;
    if selected != Some(Completed) {
      if plain != [] {
        status := InProgress;
      } else {
        status := NotStarted;
      }
    }

    if !change && obj.createdBy == None {
      obj.createdBy := Some(user);
    }
    obj.updatedBy := Some(user);
    obj.status := status;
    if isSuper {
      obj.isApproved := true;
    } else {
      obj.isApproved := false;
    }
    obj.Save();

    mail := None;
    if !isSuper {
      var fullUrl := ReviewLink(changeUrl);
      mail := Some(ApprovalMail(obj.title, user.username, fullUrl, fromEmail));
    }
  }

  /** Unless COMPLETED was chosen, the Action is IN_PROGRESS exactly when the
      update holds a visible character outside its tags, and NOT_STARTED
      otherwise; the status never becomes COMPLETED by this rule. */
  lemma StatusFollowsUpdateText(selected: Option<Status>, current: Status, update: Option<string>)
    requires selected != Some(Completed)
    ensures StatusAfterSave(selected, current, update) == InProgress
            <==> exists i :: 0 <= i < |StripTags(update.GetOr([]))| && !IsSpace(StripTags(update.GetOr([]))[i])
    ensures StatusAfterSave(selected, current, update) == NotStarted
            <==> AllSpace(StripTags(update.GetOr([])))
  {
    StripEmptyIff(StripTags(update.GetOr([])));
  }

  /** An explicit COMPLETED choice is never demoted, whatever the update says. */
  lemma CompletedIsKept(current: Status, update: Option<string>)
    ensures StatusAfterSave(Some(Completed), current, update) == current
  {
  }

  /** Only the English update decides the status: the Irish one has no say. */
  lemma IrishUpdateIgnored(f: CleanedData, g: CleanedData, current: Status)
    requires f.status == g.status && f.update == g.update
    ensures StatusAfterSave(f.status, current, f.update) == StatusAfterSave(g.status, current, g.update)
  {
  }

  /** Text the rich-text editor wraps in one element (`<p>New update</p>`)
      moves a non-completed Action to IN_PROGRESS when it has a visible
      character, and leaves a COMPLETED choice alone. */
  lemma WrappedUpdateStatus(selected: Option<Status>, current: Status, t: string)
    requires '<' !in t
    requires exists i :: 0 <= i < |t| && !IsSpace(t[i])
    ensures selected != Some(Completed) ==> StatusAfterSave(selected, current, Some("<p>" + t + "</p>")) == InProgress
    ensures selected == Some(Completed) ==> StatusAfterSave(selected, current, Some("<p>" + t + "</p>")) == current
  {
    StripTagsWrapped("<p>", t, "</p>");
    StripEmptyIff(t);
  }

  /** An empty paragraph is no update. */
  lemma EmptyParagraphIsNotStarted(selected: Option<Status>, current: Status)
    requires selected != Some(Completed)
    ensures StatusAfterSave(selected, current, Some("<p></p>")) == NotStarted
  {
    StripTagsWrapped("<p>", "", "</p>");
    assert "<p>" + "" + "</p>" == "<p></p>";
  }

  /** `ActionAdmin.get_queryset`: superusers see every Action, other users
      only approved ones, in the same order. */
  function GetQueryset(actions: seq<ActionRow>, user: User): (r: seq<ActionRow>)
    ensures user.isSuperuser ==> r == actions
    ensures forall a :: a in r <==> a in actions && (user.isSuperuser || a.isApproved)
    ensures |r| <= |actions|
  {
    if user.isSuperuser then actions else Filter(actions, (a: ActionRow) => a.isApproved)
  }

  /** The queryset keeps the table's order: ids that ascend in the table
      ascend in what a user sees. */
  lemma GetQuerysetKeepsOrder(actions: seq<ActionRow>, user: User)
    requires forall i, j :: 0 <= i < j < |actions| ==> actions[i].id < actions[j].id
    ensures var r := GetQueryset(actions, user);
            forall i, j :: 0 <= i < j < |r| ==> r[i].id < r[j].id
  {
    FilterKeepsOrderedPairs(actions, (a: ActionRow) => a.isApproved, (a: ActionRow, b: ActionRow) => a.id < b.id);
  }
}
