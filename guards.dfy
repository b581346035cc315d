/** The two permission decorators. Each verifies the request's token, looks
    up the caller and either answers with a refusal status or calls the
    wrapped handler with the arguments it was given. */
module Guards {
  import opened Values
  import opened Models

  /** What a decorated handler answers: the handler's own answer, or the
      decorator's refusal status. */
  datatype Outcome<R> = Handled(answer: R) | Refused(status: int)

  /** `admin_required`'s decision: a token that fails verification is 401;
      an unknown caller or one who is not an administrator is 403. */
  function AdminRefusal(tokenValid: bool, users: map<nat, User>, actor: nat): (status: Option<int>)
    ensures status.None? <==> tokenValid && actor in users && IsAdmin(users[actor])
    ensures status.Some? ==> (status.value == 401 <==> !tokenValid)
    ensures status.Some? ==> status.value in {401, 403}
  {
    if !tokenValid then Some(401)
    else if actor !in users || !IsAdmin(users[actor]) then Some(403)
    else None
  }

  /** `own_resource_required`'s decision for target `userId`: an unknown
      caller is 403, and so is a non-administrator addressing someone else. */
  function OwnResourceRefusal(tokenValid: bool, users: map<nat, User>, actor: nat, userId: nat): (status: Option<int>)
    ensures status.None? <==> tokenValid && actor in users && (IsAdmin(users[actor]) || actor == userId)
    ensures status.Some? ==> (status.value == 401 <==> !tokenValid)
    ensures status.Some? ==> status.value in {401, 403}
  {
    if !tokenValid then Some(401)
    else if actor !in users || (!IsAdmin(users[actor]) && actor != userId) then Some(403)
    else None
  }

  /** An `admin_required` handler `f` applied to `args`. */
  function AdminRequired<A, R>(tokenValid: bool, users: map<nat, User>, actor: nat, f: A -> R, args: A): (o: Outcome<R>)
    ensures o.Handled? <==> AdminRefusal(tokenValid, users, actor).None?
    ensures o.Handled? ==> o.answer == f(args)
    ensures o.Refused? ==> o.status == AdminRefusal(tokenValid, users, actor).value
  {
    var refusal := AdminRefusal(tokenValid, users, actor);
    if refusal.Some? then Refused(refusal.value) else Handled(f(args))
  }

  /** An `own_resource_required` handler `f` applied to target `userId`
      and the remaining arguments `args`. */
  function OwnResourceRequired<A, R>(tokenValid: bool, users: map<nat, User>, actor: nat, f: (nat, A) -> R, userId: nat, args: A): (o: Outcome<R>)
    ensures o.Handled? <==> OwnResourceRefusal(tokenValid, users, actor, userId).None?
    ensures o.Handled? ==> o.answer == f(userId, args)
    ensures o.Refused? ==> o.status == OwnResourceRefusal(tokenValid, users, actor, userId).value
  {
    var refusal := OwnResourceRefusal(tokenValid, users, actor, userId);
    if refusal.Some? then Refused(refusal.value) else Handled(f(userId, args))
  }

  /** Whoever passes the administrator check passes the own-resource check
      for every target; a non-administrator passes it for their own id
      only. */
  lemma AdminPassesEverywhere(tokenValid: bool, users: map<nat, User>, actor: nat, userId: nat)
    ensures AdminRefusal(tokenValid, users, actor).None? ==> OwnResourceRefusal(tokenValid, users, actor, userId).None?
    ensures actor in users && !IsAdmin(users[actor]) && tokenValid ==>
      (OwnResourceRefusal(tokenValid, users, actor, userId).None? <==> userId == actor)
  {
  }

  /** The decorators never change the answer of a handler they let through:
      two handlers that agree on the arguments give the same outcome. */
  lemma DecoratorTransparent<A, R>(tokenValid: bool, users: map<nat, User>, actor: nat, f: A -> R, g: A -> R, args: A)
    requires f(args) == g(args)
    ensures AdminRequired(tokenValid, users, actor, f, args) == AdminRequired(tokenValid, users, actor, g, args)
  {
  }
}
