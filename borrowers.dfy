/** Which borrower fields a collect stores on the loan record. Role
    "student" drops the designation, role "teacher" drops the section, and
    every other role (including a missing one) keeps all eight fields. */
module Borrowers {
  import opened LabTypes

  /** The request body's value of borrower field `f`. */
  function FieldOf(b: Borrower, f: BorrowerField): (v: Option<string>)
  {
    match f
    case UserName => b.userName
    case UserEmail => b.userEmail
    case UserPhone => b.userPhone
    case Department => b.department
    case Id => b.id
    case Section => b.section
    case Designation => b.designation
    case Role => b.role
  }

  /** The `userInfo` object the collect handler spreads into the record. */
  function UserInfoFor(b: Borrower): (info: UserInfo)
    ensures b.role == Some("student") ==> info.Keys == AllFields - {Designation}
    ensures b.role == Some("teacher") ==> info.Keys == AllFields - {Section}
    ensures b.role != Some("student") && b.role != Some("teacher") ==> info.Keys == AllFields
    ensures forall f :: f in info ==> info[f] == FieldOf(b, f)
  {
    var all := map[
      UserName := b.userName, UserEmail := b.userEmail, UserPhone := b.userPhone,
      Department := b.department, Id := b.id, Section := b.section,
      Designation := b.designation, Role := b.role];
    if b.role == Some("student") then all - {Designation}
    else if b.role == Some("teacher") then all - {Section}
    else all
  }

  /** Whatever the role, the record keeps the three fields a return matches
      on, with the values of the request. */
  lemma {:induction false} MatchFieldsAlwaysStored(b: Borrower, name: string, email: string, regId: string)
    requires b.userName == Some(name) && b.userEmail == Some(email) && b.id == Some(regId)
    ensures HasField(UserInfoFor(b), UserName, name)
    ensures HasField(UserInfoFor(b), UserEmail, email)
    ensures HasField(UserInfoFor(b), Id, regId)
  {
    var info := UserInfoFor(b);
    assert UserName in AllFields - {Designation} && UserName in AllFields - {Section};
    assert UserEmail in AllFields - {Designation} && UserEmail in AllFields - {Section};
    assert Id in AllFields - {Designation} && Id in AllFields - {Section};
    assert UserName in info && UserEmail in info && Id in info;
  }
}
