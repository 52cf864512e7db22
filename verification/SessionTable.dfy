/** The cmd_agent_session table and its queries: src/log.c.  mac is a unique key, so an insert
    fails exactly on a duplicate; every other query succeeds. */
module SessionTable {
  import opened Parse

  datatype Row = Row(fd: int, agentType: AgentType)

  type Rows = map<string, Row>

  /** What "delete ... where fd = ..." leaves. */
  function Purge(rows: Rows, fd: int): Rows {
    map mac | mac in rows && rows[mac].fd != fd :: rows[mac]
  }

  /** What "select fd ... where mac = ..." answers. */
  function Selected(rows: Rows, mac: string): int {
    if mac in rows then rows[mac].fd else -5
  }

  /** How the queries act on one another: a registration decides what is selected for its mac and for
      no other; purging an fd makes exactly the macs registered on it unfindable, and purging again
      does nothing; undoing a registration by a purge does not bring an older row of the mac back. */
  lemma QueryLaws(rows: Rows, fd: int, mac: string, t: AgentType)
    ensures var registered := rows[mac := Row(fd, t)];
            && (forall m :: Selected(registered, m) == if m == mac then fd else Selected(rows, m))
            && (forall m :: Selected(Purge(rows, fd), m) == if Selected(rows, m) == fd then -5 else Selected(rows, m))
            && Purge(Purge(rows, fd), fd) == Purge(rows, fd)
            && Purge(registered, fd) == Purge(rows, fd) - {mac}
            && Selected(Purge(registered, fd), mac) == -5
  {
    assert Purge(rows[mac := Row(fd, t)], fd) == Purge(rows, fd) - {mac};
  }

  class Table {
    var rows: Rows

    constructor ()
      ensures rows == map[]
    {
      rows := map[];
    }

    /** The insert query; false when the key is taken. */
    method Insert(mac: string, fd: int, agentType: AgentType) returns (ok: bool)
      modifies this
      ensures ok <==> mac !in old(rows)
      ensures rows == if ok then old(rows)[mac := Row(fd, agentType)] else old(rows)
    {
      ok := mac !in rows;
      if ok {
        rows := rows[mac := Row(fd, agentType)];
      }
    }

    /** The update query: changes the row of `mac` if there is one. */
    method Update(mac: string, fd: int, agentType: AgentType)
      modifies this
      ensures rows == if mac in old(rows) then old(rows)[mac := Row(fd, agentType)] else old(rows)
    {
      if mac in rows {
        rows := rows[mac := Row(fd, agentType)];
      }
    }

    /** mysql_insert_fd: insert, and update when the insert fails. */
    method InsertFd(mac: string, fd: int, agentType: AgentType) returns (r: int)
      modifies this
      ensures r == fd && rows == old(rows)[mac := Row(fd, agentType)]
    {
      var inserted := Insert(mac, fd, agentType);
      if !inserted {
        Update(mac, fd, agentType);
      }
      r := fd;
    }

    /** mysql_select_fd. */
    method SelectFd(mac: string) returns (fd: int)
      ensures fd == Selected(rows, mac)
    {
      if mac in rows {
        fd := rows[mac].fd;
      } else {
        fd := -5;
      }
    }

    /** mysql_delete_fd. */
    method DeleteFd(fd: int)
      modifies this
      ensures forall mac :: mac in rows <==> mac in old(rows) && old(rows)[mac].fd != fd
      ensures forall mac :: mac in rows ==> rows[mac] == old(rows)[mac]
      ensures rows == Purge(old(rows), fd)
    {
      rows := Purge(rows, fd);
    }
  }
}
