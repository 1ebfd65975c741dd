/** Where the default history database lives: the user's Application Support
    directory, then `iClippy`, then `iclippy.sqlite3`. Paths are modelled as
    their decoded text; the Application Support location is an input. */
module Paths {
  import opened Text

  const AppFolder: string := "iClippy"
  const DatabaseFile: string := "iclippy.sqlite3"

  /** `URL.appendingPathComponent`, read back through `.path`: one `/`
      separates the directory and the new component, whether or not the
      directory URL already ended with one. */
  function AppendingPathComponent(dir: string, component: string): (p: string)
    ensures dir <= p && |p| > |component|
    ensures p[|p| - |component|..] == component && p[|p| - |component| - 1] == '/'
    ensures var head := p[..|p| - |component|]; head == dir || head == dir + "/"
  {
    if dir != [] && dir[|dir| - 1] == '/' then dir + component else dir + "/" + component
  }

  /** The path `DBManager.defaultManager()` opens, given the Application
      Support directory. */
  function DefaultDatabasePath(appSupport: string): (p: string) {
    AppendingPathComponent(AppendingPathComponent(appSupport, AppFolder), DatabaseFile)
  }

  /** The default path starts with the Application Support directory and ends
      with `/iClippy/iclippy.sqlite3`: the folder and the file name, each
      after its own `/`. */
  lemma DefaultPathShape(appSupport: string)
    ensures var p := DefaultDatabasePath(appSupport);
            appSupport <= p && |p| >= |appSupport| + 23
            && p[|p| - 15..] == DatabaseFile && p[|p| - 16] == '/'
            && p[|p| - 23..|p| - 16] == AppFolder && p[|p| - 24] == '/'
  {
    var dir := AppendingPathComponent(appSupport, AppFolder);
    var p := AppendingPathComponent(dir, DatabaseFile);
    assert dir[|dir| - 1] == AppFolder[6] == 'y';
    assert p == dir + "/" + DatabaseFile;
    assert p[..|dir|] == dir;
    assert p[|p| - 23..|p| - 16] == dir[|dir| - 7..];
  }

  /** Every piece of text in the Application Support path (for instance
      "Application Support") also occurs in the default database path, and so
      do the folder and file names. */
  lemma DefaultPathContains(appSupport: string, piece: string)
    requires Contains(appSupport, piece)
    ensures Contains(DefaultDatabasePath(appSupport), piece)
    ensures Contains(DefaultDatabasePath(appSupport), AppFolder)
    ensures Contains(DefaultDatabasePath(appSupport), DatabaseFile)
  {
    var p := DefaultDatabasePath(appSupport);
    DefaultPathShape(appSupport);
    var i :| 0 <= i <= |appSupport| && piece <= appSupport[i..];
    assert appSupport[i..] <= p[i..];
    assert AppFolder <= p[|p| - 23..];
    assert DatabaseFile <= p[|p| - 15..];
  }
}
