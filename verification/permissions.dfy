/** The requesting user and the `IsAdminOrReadOnly` permission. */
module Permissions {

  /** `request.user`: anonymous, or an authenticated account with its staff flag. */
  datatype Requester = Anonymous | Member(id: int, isStaff: bool) {
    predicate IsAuthenticated() {
      Member?
    }
  }

  /** The HTTP methods that only read. */
  const SafeMethods: seq<string> := ["GET", "HEAD", "OPTIONS"]

  /** Reading is open to everyone; any other method needs an authenticated staff account. */
  function IsAdminOrReadOnly(verb: string, user: Requester): (allowed: bool)
    ensures verb in SafeMethods ==> allowed
    ensures verb !in SafeMethods ==> (allowed <==> user.Member? && user.isStaff)
  {
    verb in SafeMethods || (user.IsAuthenticated() && user.isStaff)
  }

  /** A staff account may do whatever anyone else may; what the anonymous user may do, everyone may. */
  lemma PermissionIsMonotone(verb: string, id: int, staff: bool)
    ensures IsAdminOrReadOnly(verb, Anonymous) ==> IsAdminOrReadOnly(verb, Member(id, staff))
    ensures IsAdminOrReadOnly(verb, Member(id, staff)) ==> IsAdminOrReadOnly(verb, Member(id, true))
  {
  }

  /** The four cases, spelled out. */
  lemma PermissionCases(id: int)
    ensures IsAdminOrReadOnly("GET", Anonymous) && IsAdminOrReadOnly("HEAD", Anonymous)
    ensures IsAdminOrReadOnly("OPTIONS", Member(id, false))
    ensures !IsAdminOrReadOnly("POST", Anonymous)
    ensures !IsAdminOrReadOnly("DELETE", Member(id, false))
    ensures IsAdminOrReadOnly("PATCH", Member(id, true))
  {
    assert SafeMethods[0] == "GET" && SafeMethods[1] == "HEAD" && SafeMethods[2] == "OPTIONS";
    assert "POST" !in SafeMethods by {
      assert "POST"[0] != "GET"[0] && "POST" != "HEAD" && "POST"[0] != "OPTIONS"[0];
    }
    assert "DELETE" !in SafeMethods by {
      assert "DELETE"[0] != "GET"[0] && "DELETE"[0] != "HEAD"[0] && "DELETE"[0] != "OPTIONS"[0];
    }
  }
}
