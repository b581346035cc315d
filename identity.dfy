/** The identity carried by an access token and its comparison with the
    integer owner columns.

    Tokens are issued with `identity=str(user.id)`, so `get_jwt_identity()`
    yields a decimal string. Most handlers then compare that string with an
    integer `user_id` column using `!=` or `==`; in Python an `int` never equals
    a `str`, so those comparisons never report the same user. The rest of the
    model compares user ids as numbers, which is what the handlers evidently
    intend; this module shows the two readings side by side. */
module Identity {

  function Digit(d: nat): (c: char)
    requires d < 10
  {
    ('0' as int + d) as char
  }

  /** `str(n)` for a non-negative integer. */
  function Str(n: nat): (s: string)
    ensures 1 <= |s|
    ensures s[|s| - 1] == Digit(n % 10)
    ensures n >= 10 ==> |s| >= 2 && s[..|s| - 1] == Str(n / 10)
    ensures n < 10 ==> |s| == 1
  {
    if n < 10 then [Digit(n)] else Str(n / 10) + [Digit(n % 10)]
  }

  /** Distinct users get distinct identities. */
  lemma {:induction false} StrInjective(a: nat, b: nat)
    requires Str(a) == Str(b)
    ensures a == b
  {
    var s := Str(a);
    assert Digit(a % 10) == Digit(b % 10);
    assert a % 10 == b % 10;
    if a >= 10 && b >= 10 {
      StrInjective(a / 10, b / 10);
    }
  }

  /** As written: `record.user_id != current_user_id` with an integer column
      and a string identity; the two are never equal. */
  function SameUserAsWritten(identity: string, ownerId: nat): (same: bool)
  {
    false
  }

  /** Under the comparison as written, even the owner's own token is not
      recognised: user 7, holding identity "7", is taken for someone else. */
  lemma OwnerUnrecognisedAsWritten()
    ensures Str(7) == "7"
    ensures !SameUserAsWritten(Str(7), 7)
  {
  }

  /** As intended: the identity names the owner when it is the owner's id
      rendered as text (what `int(get_jwt_identity())` in the review handlers
      achieves). */
  function SameUser(identity: string, ownerId: nat): (same: bool)
  {
    identity == Str(ownerId)
  }

  /** The intended comparison recognises exactly the owner, so comparing the
      numeric ids, as the rest of the model does, is equivalent to it. */
  lemma SameUserIff(actor: nat, ownerId: nat)
    ensures SameUser(Str(actor), ownerId) <==> actor == ownerId
  {
    if SameUser(Str(actor), ownerId) {
      StrInjective(actor, ownerId);
    }
  }
}
