/**
 * The user records: one text file per user, `<directory>/<username>.txt`.
 * The filesystem is a map from path to what reading it gives: `Some(text)`
 * for a file that reads as UTF-8 text, `None` for a path that exists but
 * cannot be read or decoded. A path outside the map does not exist.
 */
module UserStore {
  import opened Wrappers

  type FileSystem = map<string, Option<string>>

  /** The sentinel sent back for a missing or unreadable record. */
  const USER_ERROR: string := "user not found"

  /** The path both the existence check and the read use. */
  function UserPath(directory: string, username: string): (path: string)
    ensures |path| == |directory| + |username| + 5
    ensures path[..|directory|] == directory && path[|directory|] == '/'
    ensures path[|directory| + 1..|path| - 4] == username && path[|path| - 4..] == ".txt"
  {
    directory + "/" + username + ".txt"
  }

  /** Whether `<directory>/<username>.txt` exists, readable or not. */
  predicate FileExists(fs: FileSystem, directory: string, username: string)
  {
    UserPath(directory, username) in fs
  }

  /**
   * Existence depends on that one path string only: creating or removing the
   * file of `u`, whatever its contents, makes `u` exist or not and leaves
   * every other path string of the directory as it was. Distinct strings are
   * distinct files here; `.`/`..`, links and case folding are not resolved.
   */
  lemma FileExistsFrame(fs: FileSystem, directory: string, u: string, v: string, entry: Option<string>)
    ensures FileExists(fs[UserPath(directory, u) := entry], directory, v) <==> (v == u || FileExists(fs, directory, v))
    ensures FileExists(fs - {UserPath(directory, u)}, directory, v) <==> (v != u && FileExists(fs, directory, v))
  {
    if UserPath(directory, u) == UserPath(directory, v) {
      UserPathInjective(directory, u, v);
    }
  }

  /**
   * The record of `username`: its text verbatim, or the sentinel when the
   * file is absent, unreadable or not UTF-8.
   */
  function ReadFile(fs: FileSystem, directory: string, username: string): (r: string)
    ensures r == USER_ERROR || (FileExists(fs, directory, username) && fs[UserPath(directory, username)] == Some(r))
    ensures !FileExists(fs, directory, username) ==> r == USER_ERROR
    ensures FileExists(fs, directory, username) ==> r == fs[UserPath(directory, username)].GetOr(USER_ERROR)
  {
    if !FileExists(fs, directory, username) then USER_ERROR
    else
      match fs[UserPath(directory, username)]
      case Some(contents) => contents
      case None => USER_ERROR
  }

  /** Distinct user names in one directory give distinct path strings. */
  lemma UserPathInjective(directory: string, a: string, b: string)
    requires UserPath(directory, a) == UserPath(directory, b)
    ensures a == b
  {
    var p := UserPath(directory, a);
    assert a == p[|directory| + 1..|p| - 4];
  }
}
