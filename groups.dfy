/** The admin UI's group gate (public/backend/app.js): which Keycloak groups
    let a signed-in user into the application. */
module Groups {
  import opened Wrappers

  /** `normalizeGroupName`: a missing name becomes '', and one leading '/' is removed. */
  function NormalizeGroupName(name: Option<string>): (r: string)
    ensures name == None ==> r == ""
    ensures name.Some? && |name.value| > 0 && name.value[0] == '/' ==> r == name.value[1..]
    ensures name.Some? && (|name.value| == 0 || name.value[0] != '/') ==> r == name.value
  {
    match name
    case None => ""
    case Some(s) => if |s| > 0 && s[0] == '/' then s[1..] else s
  }

  /** The configured groups; a missing option reads as ''. */
  datatype GroupConfig = GroupConfig(userGroup: Option<string>, adminGroup: Option<string>)

  /** The user's groups after `(groups || []).map(normalizeGroupName)`, as a set. */
  function NormalizedGroups(groups: Option<seq<string>>): (s: set<string>)
    ensures forall g :: g in s <==> exists i | 0 <= i < |groups.GetOr([])| :: NormalizeGroupName(Some(groups.GetOr([])[i])) == g
  {
    var gs := groups.GetOr([]);
    set i | 0 <= i < |gs| :: NormalizeGroupName(Some(gs[i]))
  }

  /** `isAuthorized(groups, cfg)`. */
  predicate IsAuthorized(groups: Option<seq<string>>, cfg: GroupConfig) {
    var required := NormalizeGroupName(Some(cfg.userGroup.GetOr("")));
    var admin := NormalizeGroupName(Some(cfg.adminGroup.GetOr("")));
    if required == "" then true
    else
      var names := NormalizedGroups(groups);
      if required in names then true
      else if admin != "" && admin in names then true
      else false
  }

  /** Exactly one leading '/' is stripped. */
  lemma NormalizeExamples()
    ensures NormalizeGroupName(Some("//a")) == "/a"
    ensures NormalizeGroupName(Some("/users")) == "users"
    ensures NormalizeGroupName(Some("users")) == "users"
    ensures NormalizeGroupName(None) == ""
  {
  }

  /** Normalising is a no-op on a name that does not start with '/', so a name
      stripped once is only stripped again if it had two leading slashes. */
  lemma NormalizeStable(s: string)
    requires |s| == 0 || s[0] != '/'
    ensures NormalizeGroupName(Some(s)) == s
    ensures NormalizeGroupName(Some("/" + s)) == s
  {
  }

  /** The gate in one statement: no requirement lets everyone in; otherwise the
      user needs the required group, or the (non-empty) admin group, under
      normalisation on both sides. */
  lemma AuthorizedIff(groups: Option<seq<string>>, cfg: GroupConfig)
    ensures var required := NormalizeGroupName(cfg.userGroup);
            var admin := NormalizeGroupName(cfg.adminGroup);
            var gs := groups.GetOr([]);
            IsAuthorized(groups, cfg) <==>
              || required == ""
              || (exists i | 0 <= i < |gs| :: NormalizeGroupName(Some(gs[i])) == required)
              || (admin != "" && exists i | 0 <= i < |gs| :: NormalizeGroupName(Some(gs[i])) == admin)
  {
    assert NormalizeGroupName(Some(cfg.userGroup.GetOr(""))) == NormalizeGroupName(cfg.userGroup);
    assert NormalizeGroupName(Some(cfg.adminGroup.GetOr(""))) == NormalizeGroupName(cfg.adminGroup);
  }

  /** A missing group list behaves as an empty one: only an absent requirement admits it. */
  lemma MissingGroupsAreEmpty(cfg: GroupConfig)
    ensures IsAuthorized(None, cfg) == IsAuthorized(Some([]), cfg)
    ensures IsAuthorized(None, cfg) <==> NormalizeGroupName(cfg.userGroup) == ""
  {
    AuthorizedIff(None, cfg);
  }

  /** A gate requiring 'users': membership of '/users' admits and '/other' does not;
      membership of a configured admin group admits without the required group,
      and an empty admin group admits nobody. */
  lemma GateExamples()
    ensures IsAuthorized(Some(["/users"]), GroupConfig(Some("users"), None))
    ensures !IsAuthorized(Some(["/other"]), GroupConfig(Some("users"), None))
    ensures IsAuthorized(Some(["admins"]), GroupConfig(Some("/users"), Some("/admins")))
    ensures !IsAuthorized(Some(["admins"]), GroupConfig(Some("/users"), Some("")))
  {
    AuthorizedIff(Some(["/users"]), GroupConfig(Some("users"), None));
    assert NormalizeGroupName(Some(["/users"][0])) == "users";
    AuthorizedIff(Some(["/other"]), GroupConfig(Some("users"), None));
    assert NormalizeGroupName(Some(["/other"][0])) == "other";
    AuthorizedIff(Some(["admins"]), GroupConfig(Some("/users"), Some("/admins")));
    assert NormalizeGroupName(Some(["admins"][0])) == "admins";
    AuthorizedIff(Some(["admins"]), GroupConfig(Some("/users"), Some("")));
  }
}
