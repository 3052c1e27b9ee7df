/** Who may run the admin-only commands (`_is_super_admin`, `_is_group_admin`,
    `_has_admin_rights`). The host's sender object is given here already
    normalised to four fields; a missing sender is `None`. */
module Auth {
  import opened Text
  import opened Parse

  /** The sender attributes the plugin probes: `is_owner`, `is_admin`, `role`
      and `permission`. A role or permission that is not a string is given as "". */
  datatype Sender = Sender(isOwner: bool, isAdmin: bool, role: string, permission: string)

  /** `_is_super_admin`: the user id is one of the configured `admin_ids`
      (each already converted to a string). */
  function IsSuperAdmin(userId: string, adminIds: seq<string>): (r: bool)
    ensures r <==> exists i :: 0 <= i < |adminIds| && adminIds[i] == userId
  {
    userId in adminIds
  }

  /** A role or permission word that grants admin rights: "owner" or "admin"
      in any letter case, with nothing around it. */
  predicate IsAdminWord(s: string) {
    Lower(s) == "owner" || Lower(s) == "admin"
  }

  /** `_is_group_admin`: the host reports the sender as group owner or admin. */
  function IsGroupAdmin(sender: Option<Sender>): (r: bool)
    ensures sender.None? ==> !r
    ensures sender.Some? && (sender.value.isOwner || sender.value.isAdmin) ==> r
    ensures sender.Some? ==>
      (r <==> || sender.value.isOwner || sender.value.isAdmin
              || Lower(sender.value.role) in {"owner", "admin"}
              || Lower(sender.value.permission) in {"owner", "admin"})
  {
    match sender
    case None => false
    case Some(s) => s.isOwner || s.isAdmin || IsAdminWord(s.role) || IsAdminWord(s.permission)
  }

  /** `_has_admin_rights`: on the allow-list, or a group owner or admin. */
  function HasAdminRights(userId: string, adminIds: seq<string>, sender: Option<Sender>): (r: bool)
    ensures IsSuperAdmin(userId, adminIds) ==> r
    ensures !IsSuperAdmin(userId, adminIds) ==> (r <==> IsGroupAdmin(sender))
  {
    IsSuperAdmin(userId, adminIds) || IsGroupAdmin(sender)
  }

  /** The role and permission words are compared without regard to letter case. */
  lemma AdminWordIgnoresCase(x: string, y: string)
    requires Lower(x) == Lower(y)
    ensures IsAdminWord(x) <==> IsAdminWord(y)
  {
  }

  /** "Admin" and "OWNER" grant rights; a padded " admin" does not, since the
      word is lower-cased but not stripped. */
  lemma AdminWordExamples()
    ensures IsAdminWord("Admin") && IsAdminWord("OWNER")
    ensures !IsAdminWord(" admin")
  {
    assert Lower("Admin") == "admin" by {
      var l := Lower("Admin");
      assert l[0] == 'a' && l[1] == 'd' && l[2] == 'm' && l[3] == 'i' && l[4] == 'n';
    }
    assert Lower("OWNER") == "owner" by {
      var l := Lower("OWNER");
      assert l[0] == 'o' && l[1] == 'w' && l[2] == 'n' && l[3] == 'e' && l[4] == 'r';
    }
    assert |Lower(" admin")| == 6;
  }

  /** Adding ids to the allow-list never takes rights away. */
  lemma AllowListMonotone(userId: string, ids: seq<string>, more: seq<string>, sender: Option<Sender>)
    requires HasAdminRights(userId, ids, sender)
    ensures HasAdminRights(userId, ids + more, sender)
  {
    if IsSuperAdmin(userId, ids) {
      var i :| 0 <= i < |ids| && ids[i] == userId;
      assert (ids + more)[i] == userId;
    }
  }
}
