/** The checks in front of every protected request. */
module AuthGate {
  import opened Wrappers
  import opened Accounts
  import opened Store
  import opened Machine
  import T = Transitions
  import Effects
  import AuthService

  method RequireCurrentUser(db: Database, cfg: Settings, now: Time, token: Option<nat>) returns (reply: Reply)
    modifies db`sessions
    ensures Outcome(db.Snapshot(), reply) == T.RequireCurrentUser(cfg, old(db.Snapshot()), now, token)
    ensures reply == Anonymous <==> !cfg.authEnabled
    ensures reply.Granted? <==> cfg.authEnabled && token.Some? && MayUse(old(db.Snapshot()), now, token.value)
    ensures reply.Granted? ==>
      reply.context.session == token.value && reply.context.user == old(db.sessions)[token.value].user
    ensures Effects.CurrentUserMeans(cfg, old(db.Snapshot()), now, token, Outcome(db.Snapshot(), reply))
  {
    Effects.CurrentUserMeets(cfg, Db(db.users, db.sessions, db.history), now, token);
    hide Effects.CurrentUserMeans;
    if !cfg.authEnabled {
      return Anonymous;
    }
    if token.None? {
      return LoginRequired;
    }
    reply := AuthService.ResolveSession(db, cfg, now, token.value);
  }

  method RequireRoles(db: Database, cfg: Settings, now: Time, token: Option<nat>, roles: set<Role>)
    returns (reply: Reply)
    modifies db`sessions
    ensures Outcome(db.Snapshot(), reply) == T.RequireRoles(cfg, old(db.Snapshot()), now, token, roles)
    ensures reply.Granted? <==>
      && cfg.authEnabled && token.Some? && MayUse(old(db.Snapshot()), now, token.value)
      && var user := old(db.users)[old(db.sessions)[token.value].user];
         !user.mustChange && user.role in roles
    ensures reply in {PasswordChangeRequired, PermissionDenied} ==>
      token.Some? && MayUse(old(db.Snapshot()), now, token.value)
    ensures Effects.GateMeans(cfg, old(db.Snapshot()), now, token, roles, Outcome(db.Snapshot(), reply))
  {
    Effects.GateMeets(cfg, Db(db.users, db.sessions, db.history), now, token, roles);
    hide Effects.GateMeans;
    reply := RequireCurrentUser(db, cfg, now, token);
    if reply.Granted? {
      if reply.context.mustChange {
        reply := PasswordChangeRequired;
      } else if reply.context.role !in roles {
        reply := PermissionDenied;
      }
    }
  }
}
