/**
 * `UserPanel.content`: what the toolbar's user panel renders.  When the panel's debug
 * setting is off it answers "forbidden"; otherwise it lists the logged-in user's fields
 * (all but the password), the users who logged in most recently, and the `next` query
 * parameter.
 *
 * The user model's field metadata is a sequence of `Field` records, the logged-in user
 * a map from attribute name to value, and the users table the sequence the database
 * returns when ordered by last login, newest first.
 */
module Panels {
  import opened Wrappers

  /**
   * The two settings the panel reads.  `userDebug` is `DEBUG_TOOLBAR_USER_DEBUG`: `None`
   * when it is not set at all, otherwise the truth value of what it is set to.
   */
  datatype Settings = Settings(userDebug: Option<bool>, debug: bool)

  /** Whether the panel may show anything: the panel's own setting, or `DEBUG` when that is not set. */
  function DebugEnabled(settings: Settings): (enabled: bool)
    ensures enabled <==> settings.userDebug == Some(true) || (settings.userDebug.None? && settings.debug)
  {
    match settings.userDebug
    case Some(enabled) => enabled
    case None => settings.debug
  }

  /** One entry of the user model's field metadata: the field's `name` and its `attname`. */
  datatype Field = Field(name: string, attname: string)

  /** The name of the one field the panel never shows. */
  const PasswordField: string := "password"

  /** One row of the users table, as far as the panel orders it. */
  datatype UserRow = UserRow(pk: int, lastLogin: int)

  /** The most users the panel lists. */
  const RecentUsersLimit: nat := 10

  /** The request as the panel sees it: is a user logged in, that user's attributes, and `?next=`. */
  datatype Request<V> = Request(authenticated: bool, user: map<string, V>, next: Option<string>)

  /** What `content` returns: the forbidden response, or the context the panel template is rendered with. */
  datatype Response<V> =
    | Forbidden
    | Rendered(current: seq<(string, V)>, users: seq<UserRow>, next: Option<string>)

  /** The user has an attribute for every field the panel reads. */
  predicate HasAttributes<V>(fields: seq<Field>, user: map<string, V>) {
    forall i :: 0 <= i < |fields| && fields[i].name != PasswordField ==> fields[i].attname in user
  }

  /** The entry for one field: its attribute name paired with the user's value of that attribute. */
  function Entry<V>(field: Field, user: map<string, V>): (e: (string, V))
    requires field.attname in user
    ensures e.0 == field.attname && e.1 == user[field.attname]
  {
    (field.attname, user[field.attname])
  }

  /** The entries `current` is built from: one per field not named `password`, in field order. */
  function CurrentEntries<V>(fields: seq<Field>, user: map<string, V>): (entries: seq<(string, V)>)
    requires HasAttributes(fields, user)
    ensures |entries| <= |fields|
    ensures forall k :: 0 <= k < |entries| ==> entries[k].0 in user && entries[k].1 == user[entries[k].0]
  {
    if fields == [] then []
    else
      var field := fields[|fields| - 1];
      CurrentEntries(fields[..|fields| - 1], user) + if field.name == PasswordField then [] else [Entry(field, user)]
  }

  /** The users listed: the first `RecentUsersLimit` rows of the table as the database orders it. */
  function RecentUsers(byLastLogin: seq<UserRow>): (users: seq<UserRow>)
    ensures |users| <= RecentUsersLimit
    ensures users <= byLastLogin
    ensures |users| < RecentUsersLimit ==> users == byLastLogin
  {
    if |byLastLogin| <= RecentUsersLimit then byLastLogin else byLastLogin[..RecentUsersLimit]
  }

  /** What `content` computes, building `current` field by field as the source does. */
  method Content<V>(settings: Settings, request: Request<V>, fields: seq<Field>, byLastLogin: seq<UserRow>)
    returns (r: Response<V>)
    requires request.authenticated ==> HasAttributes(fields, request.user)
    ensures r.Forbidden? <==> !DebugEnabled(settings)
    ensures r.Rendered? ==> r.current == if request.authenticated then CurrentEntries(fields, request.user) else []
    ensures r.Rendered? ==> r.users == RecentUsers(byLastLogin) && r.next == request.next
  {
    if !DebugEnabled(settings) {
      return Forbidden;
    }
    var current: seq<(string, V)> := [];
    if request.authenticated {
      for i := 0 to |fields|
        invariant current == CurrentEntries(fields[..i], request.user)
      {
        assert fields[..i + 1][..i] == fields[..i];
        var field := fields[i];
        if field.name == PasswordField {
          continue;
        }
        current := current + [(field.attname, request.user[field.attname])];
      }
      assert fields[..|fields|] == fields;
    }
    r := Rendered(current, RecentUsers(byLastLogin), request.next);
  }

  // ---------------------------------------------------------------------------
  // The debug setting

  /** An explicit `DEBUG_TOOLBAR_USER_DEBUG` decides alone, overriding `DEBUG` in both directions. */
  lemma ExplicitSettingOverridesDebug(enabled: bool, debug1: bool, debug2: bool)
    ensures DebugEnabled(Settings(Some(enabled), debug1)) == enabled
    ensures DebugEnabled(Settings(Some(enabled), debug1)) == DebugEnabled(Settings(Some(enabled), debug2))
  {
  }

  /** Without `DEBUG_TOOLBAR_USER_DEBUG` the panel follows `DEBUG`. */
  lemma FallsBackToDebug(debug: bool)
    ensures DebugEnabled(Settings(None, debug)) == debug
  {
  }

  // ---------------------------------------------------------------------------
  // The current user's fields

  /** The entries for a prefix of the fields are a prefix of the entries for all of them. */
  lemma {:induction false} CurrentEntriesPrefix<V>(fields: seq<Field>, user: map<string, V>, m: nat)
    requires HasAttributes(fields, user) && m <= |fields|
    ensures HasAttributes(fields[..m], user)
    ensures CurrentEntries(fields[..m], user) <= CurrentEntries(fields, user)
  {
    if m < |fields| {
      var init := fields[..|fields| - 1];
      assert init[..m] == fields[..m];
      CurrentEntriesPrefix(init, user, m);
    } else {
      assert fields[..m] == fields;
    }
  }

  /**
   * Every field not named `password` contributes its entry, at the position given by the
   * number of such fields before it: one entry per field, in field order.
   */
  lemma EntryOfField<V>(fields: seq<Field>, user: map<string, V>, j: nat)
    requires HasAttributes(fields, user) && j < |fields| && fields[j].name != PasswordField
    ensures HasAttributes(fields[..j], user)
    ensures |CurrentEntries(fields[..j], user)| < |CurrentEntries(fields, user)|
    ensures CurrentEntries(fields, user)[|CurrentEntries(fields[..j], user)|] == Entry(fields[j], user)
  {
    CurrentEntriesPrefix(fields, user, j + 1);
    var upTo := fields[..j + 1];
    assert upTo[..j] == fields[..j];
    assert CurrentEntries(upTo, user) == CurrentEntries(fields[..j], user) + [Entry(fields[j], user)];
  }

  /** Every entry comes from a field not named `password`, and is that field's attribute name with the user's value. */
  lemma {:induction false} FieldOfEntry<V>(fields: seq<Field>, user: map<string, V>, k: nat)
    requires HasAttributes(fields, user) && k < |CurrentEntries(fields, user)|
    ensures exists j ::
      && 0 <= j < |fields| && fields[j].name != PasswordField && fields[j].attname in user
      && CurrentEntries(fields, user)[k] == Entry(fields[j], user)
  {
    var init := fields[..|fields| - 1];
    var last := fields[|fields| - 1];
    if k < |CurrentEntries(init, user)| {
      FieldOfEntry(init, user, k);
      var j :| 0 <= j < |init| && init[j].name != PasswordField &&
        init[j].attname in user && CurrentEntries(init, user)[k] == Entry(init[j], user);
      assert fields[j] == init[j];
    } else {
      assert last.name != PasswordField && CurrentEntries(fields, user)[k] == Entry(last, user);
    }
  }

  /** No entry is the password: there are exactly as many entries as fields not named `password`. */
  lemma {:induction false} EntryCount<V>(fields: seq<Field>, user: map<string, V>)
    requires HasAttributes(fields, user)
    ensures |CurrentEntries(fields, user)| == |set i | 0 <= i < |fields| && fields[i].name != PasswordField|
  {
    if fields != [] {
      var n := |fields| - 1;
      var init := fields[..n];
      EntryCount(init, user);
      var before := set i | 0 <= i < n && init[i].name != PasswordField;
      var after := set i | 0 <= i < |fields| && fields[i].name != PasswordField;
      assert before == set i | 0 <= i < n && fields[i].name != PasswordField;
      if fields[n].name == PasswordField {
        assert after == before;
      } else {
        assert after == before + {n};
      }
    }
  }

  // ---------------------------------------------------------------------------
  // Recent users

  /** The table as ordered by `-last_login`: each row logged in no earlier than the next. */
  predicate ByLastLoginDescending(rows: seq<UserRow>) {
    forall i :: 0 < i < |rows| ==> rows[i - 1].lastLogin >= rows[i].lastLogin
  }

  lemma {:induction false} DescendingBetween(rows: seq<UserRow>, i: nat, j: nat)
    requires ByLastLoginDescending(rows) && i <= j < |rows|
    ensures rows[i].lastLogin >= rows[j].lastLogin
    decreases j - i
  {
    if i < j {
      DescendingBetween(rows, i + 1, j);
    }
  }

  /** Of a table ordered newest first, the listed users logged in no earlier than any user left off the list. */
  lemma RecentUsersAreMostRecent(byLastLogin: seq<UserRow>, i: nat, j: nat)
    requires ByLastLoginDescending(byLastLogin)
    requires i < |RecentUsers(byLastLogin)| <= j < |byLastLogin|
    ensures RecentUsers(byLastLogin)[i].lastLogin >= byLastLogin[j].lastLogin
  {
    DescendingBetween(byLastLogin, i, j);
  }
}
