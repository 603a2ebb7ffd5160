/** The access registry (`get_user_files`): user e-mail to the ordered list of
    file names that user may query, as parsed from `user_access.json`. */
module Registry {

  type Access = map<string, seq<string>>

  /** The lookup with a default: a listed user gets exactly their list; a user
      absent from the registry gets no files rather than an error. */
  function GetUserFiles(access: Access, email: string): (files: seq<string>)
    ensures email in access ==> files == access[email]
    ensures email !in access ==> files == []
  {
    if email in access then access[email] else []
  }
}
