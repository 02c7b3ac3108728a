/** User records and the rows `userToRow` makes of them: the nine columns of a user row. */
module UserModel {
  import opened Js
  import opened Rows

  /** The fields of a user, one per column. */
  datatype User = User(
    userId: Num,
    username: string,
    usernameClean: string,
    userPassword: string,
    groupId: Num,
    userPermissions: string,
    userSig: string,
    userSigBbcodeUid: string,
    userSigBbcodeBitfield: string)

  /** The cell kinds of a user row, column by column. */
  const Shape: seq<Kind> := [
    NumberCell, StringCell, StringCell, StringCell,
    NumberCell, StringCell, StringCell, StringCell,
    StringCell]

  /** `userToRow`: the fields in column order. */
  function UserToRow(user: User): (r: Row)
    ensures Fits(r, Shape)
  {
    [Number(user.userId),
     Str(user.username),
     Str(user.usernameClean),
     Str(user.userPassword),
     Number(user.groupId),
     Str(user.userPermissions),
     Str(user.userSig),
     Str(user.userSigBbcodeUid),
     Str(user.userSigBbcodeBitfield)]
  }

  /** Reading a user back from a row, by position; no user when a cell has
      the wrong kind or the row the wrong length. */
  function RowToUser(r: Row): (t: Option<User>)
    ensures t.Some? <==> Fits(r, Shape)
  {
    if !Fits(r, Shape) then None
    else Some(User(
      r[0].num, r[1].text, r[2].text, r[3].text,
      r[4].num, r[5].text, r[6].text, r[7].text,
      r[8].text))
  }

  /** Every user is read back from its row. */
  lemma UserRoundTrip(user: User)
    ensures RowToUser(UserToRow(user)) == Some(user)
  {
  }

  /** Every row of the right shape is the row of the user read from it. */
  lemma RowRoundTrip(r: Row)
    requires Fits(r, Shape)
    ensures UserToRow(RowToUser(r).value) == r
  {
    var back := UserToRow(RowToUser(r).value);
    forall i | 0 <= i < |r| ensures back[i] == r[i] {
      assert r[i].Number? <==> Shape[i] == NumberCell;
    }
  }
}
