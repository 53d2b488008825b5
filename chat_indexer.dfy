/**
 * The data access object of the chat indexer (`XChatIndexer::GrnDatabase`):
 * a handle that is nil or attached to the database file under a base path,
 * and the operations that go through it. The file system is a map from
 * database path to database contents; Groonga's own files, contexts and
 * encodings are not modelled.
 */
module XChatIndexer {
  import opened Wrappers
  import opened Messages
  import Queries

  /** The databases on disk, by path. */
  class Disk {
    var databases: map<string, Archive>

    constructor (initial: map<string, Archive>)
      ensures databases == initial
    {
      databases := initial;
    }
  }

  /** Ruby's `NoMethodError` from calling `method` on `nil`. */
  datatype Error = NoMethodError(methodName: string)

  /** `File.join(base_path, "xchat_index.db")`. */
  function DatabasePath(basePath: string): (p: string)
    ensures basePath <= p && |p| > |"xchat_index.db"|
    ensures |p| == |basePath| + |"xchat_index.db"| + (if basePath != [] && basePath[|basePath| - 1] == '/' then 0 else 1)
    ensures p[|p| - |"xchat_index.db"|..] == "xchat_index.db"
    ensures p[|p| - |"xchat_index.db"| - 1] == '/'
  {
    if basePath != [] && basePath[|basePath| - 1] == '/' then basePath + "xchat_index.db"
    else basePath + "/xchat_index.db"
  }

  /** A trailing separator on the base path names the same database file. */
  lemma DatabasePathTrailingSlash(basePath: string)
    requires basePath == [] || basePath[|basePath| - 1] != '/'
    ensures DatabasePath(basePath + "/") == DatabasePath(basePath)
  {
    assert (basePath + "/")[|basePath + "/"| - 1] == '/';
  }

  class GrnDatabase {
    const disk: Disk
    /** `@database`: the path of the attached database, or nil. */
    var database: Option<string>

    ghost predicate Valid()
      reads this, disk
    {
      database.Some? ==> database.value in disk.databases
    }

    /** `initialize`: no database attached. */
    constructor (disk: Disk)
      ensures this.disk == disk && database == None
      ensures Valid()
    {
      this.disk := disk;
      database := None;
    }

    /** `closed?`: true when no database is attached. */
    predicate IsClosed()
      reads this
    {
      database.None?
    }

    /** The contents of the attached database. */
    function Current(): Archive
      reads this, disk
      requires Valid() && !IsClosed()
    {
      disk.databases[database.value]
    }

    /**
     * `open`: attaches to the database under `basePath`, creating it with the
     * empty schema when there is none; an existing database keeps its data.
     * The encoding only configures Groonga's context.
     */
    method Open(basePath: string, encoding: string)
      modifies this, disk
      ensures Valid() && !IsClosed()
      ensures database == Some(DatabasePath(basePath))
      ensures DatabasePath(basePath) in old(disk.databases) ==> disk.databases == old(disk.databases)
      ensures DatabasePath(basePath) !in old(disk.databases) ==>
        disk.databases == old(disk.databases)[DatabasePath(basePath) := EmptyArchive]
    {
      var path := DatabasePath(basePath);
      if path !in disk.databases {
        disk.databases := disk.databases[path := EmptyArchive];
      }
      database := Some(path);
    }

    /**
     * `close`: detaches the handle; the data stays on disk. With no handle,
     * `@database.close` raises and nothing changes.
     */
    method Close() returns (r: Outcome<Error>)
      modifies this
      ensures r == (if old(database).None? then Fail(NoMethodError("close")) else Pass)
      ensures database == None && IsClosed()
      ensures disk.databases == old(disk.databases)
      ensures Valid()
    {
      if database.None? {
        r := Fail(NoMethodError("close"));
      } else {
        database := None;
        r := Pass;
      }
    }

    /**
     * `add_message`: appends one record to the attached database's Messages
     * table and returns its id, one more than the number of earlier records.
     */
    method AddMessage(attributes: Attributes) returns (r: Result<nat, Error>)
      requires Valid()
      modifies disk
      ensures Valid() && database == old(database)
      ensures old(IsClosed()) ==> r == Failure(NoMethodError("add")) && disk.databases == old(disk.databases)
      ensures !old(IsClosed()) ==>
        && r == Success(|old(Current()).messages| + 1)
        && disk.databases == old(disk.databases)[database.value := Append(old(Current()), attributes)]
    {
      if database.None? {
        r := Failure(NoMethodError("add"));
      } else {
        var path := database.value;
        var before := disk.databases[path];
        disk.databases := disk.databases[path := Append(before, attributes)];
        r := Success(|before.messages| + 1);
      }
    }

    /** `find_message` on the attached database. */
    method FindMessage(server: string, channel: string, words: seq<string>, n: nat,
                       matches: (string, string) -> bool)
      returns (r: Result<seq<MessageHash>, Error>)
      requires Valid()
      ensures IsClosed() ==> r == Failure(NoMethodError("select"))
      ensures !IsClosed() ==> r == Success(Queries.FindMessage(Current(), server, channel, words, n, matches))
    {
      if database.None? {
        r := Failure(NoMethodError("select"));
      } else {
        r := Success(Queries.FindMessage(disk.databases[database.value], server, channel, words, n, matches));
      }
    }

    /** `show_n_messages` on the attached database. */
    method ShowNMessages(msgId: int, n: nat) returns (r: Result<Option<seq<MessageHash>>, Error>)
      requires Valid()
      ensures IsClosed() ==> r == Failure(NoMethodError("select"))
      ensures !IsClosed() ==> r == Success(Queries.ShowNMessages(Current(), msgId, n))
    {
      if database.None? {
        r := Failure(NoMethodError("select"));
      } else {
        r := Success(Queries.ShowNMessages(disk.databases[database.value], msgId, n));
      }
    }
  }

  /**
   * A session: open a fresh path, store a message, close, reopen. The message
   * is still there with id 1 and is found again.
   */
  method ReopenKeepsMessages(basePath: string, a: Attributes, matches: (string, string) -> bool)
    returns (found: Result<seq<MessageHash>, Error>)
    ensures found.Success? && |found.value| == 1
    ensures found.Success? ==> found.value[0].id == 1 && found.value[0].message == a.message
  {
    var disk := new Disk(map[]);
    var db := new GrnDatabase(disk);
    db.Open(basePath, "utf-8");
    var id := db.AddMessage(a);
    assert id == Success(1);
    var closed := db.Close();
    assert closed == Pass && db.IsClosed();
    db.Open(basePath, "utf-8");
    assert |db.Current().messages| == 1;
    found := db.FindMessage(a.server, a.channel, [], 20, matches);
    Queries.FindMessageIsNewestMatches(db.Current(), a.server, a.channel, [], 20, matches);
    assert db.Current().messages[0] in Queries.Matching(db.Current(), a.server, a.channel, [], matches);
  }
}
