/**
 The pool as its threads run it: fields under two kinds of mutex, and one
 method for each section that holds one.
 */
module PoolThreads {
  import opened ThreadPool

  class Group<T> {
    var head: seq<T>
    var master: Phase<T>
    var cursor: nat
    const members: array<Member<T>>
    ghost var added: seq<T>
    ghost var dispatched: seq<T>

    constructor (n: nat)
      requires n >= 1
      ensures Abstract() == Start(n) && Inv(Abstract()) && fresh(members)
    {
      members := new Member<T>[n](_ => Member([], 0, Ready, [], 0));
      head, master, cursor, added, dispatched := [], Ready, 0, [], [];
      new;
      assert members[..] == Start<T>(n).members;
      RunKeepsInv<T>(n, []);
    }

    ghost function Abstract(): State<T>
      reads this, members
    {
      State(head, master, cursor, members[..], added, dispatched)
    }

    /** `list_add_tail` and `pthread_cond_broadcast` in `ml_add_thread_pool_node`. */
    method AddPoolNode(node: T)
      requires Inv(Abstract())
      modifies this
      ensures Abstract() == Apply(old(Abstract()), Add(node)) && Inv(Abstract())
    {
      StepKeepsInv(Abstract(), Add(node));
      head := head + [node];
      added := added + [node];
      if master.Waiting? { master := Signalled; }
    }

    /** `ml_get_thread_node` on the group list, by the thread that holds its mutex. */
    method GetThreadNode() returns (node: T)
      requires head != []
      modifies `head
      ensures node == old(head[0]) && head == old(head[1..])
    {
      node := head[0];
      head := head[1..];
    }

    /** `ml_get_thread_group_node`, up to the wait. */
    method GetGroupNode()
      requires Inv(Abstract()) && master.Ready?
      modifies this
      ensures Abstract() == Apply(old(Abstract()), MasterLook) && Inv(Abstract())
      ensures master.Waiting? || (master.Busy? && old(head) == [master.node] + head)
    {
      StepKeepsInv(Abstract(), MasterLook);
      if head == [] {
        master := Waiting;
      } else {
        var node := GetThreadNode();
        master := Busy(node);
      }
    }

    /** The end of the wait: by time-out, or awake, which without a node to take ends the loop. */
    method EndGroupWait(timedOut: bool)
      requires Inv(Abstract()) && (master.Signalled? || master.Waiting?)
      modifies this
      ensures Abstract() == Apply(old(Abstract()), if timedOut then MasterTimeout else MasterWake) && Inv(Abstract())
      ensures if timedOut then master.Ready? else if old(head) == [] then master.Stopped?
              else master.Busy? && old(head) == [master.node] + head
    {
      StepKeepsInv(Abstract(), if timedOut then MasterTimeout else MasterWake);
      if timedOut {
        master := Ready;
      } else if head == [] {
        master := Stopped;
      } else {
        var node := GetThreadNode();
        master := Busy(node);
      }
    }

    /** `ml_add_thread_member_node` */
    method AddMemberNode(node: T, i: nat)
      requires i < members.Length
      modifies members
      ensures members[..] == old(members[..])[i := Received(old(members[i]), node)]
    {
      var m := members[i];
      m := m.(list := m.list + [node]);
      if m.phase.Waiting? { m := m.(phase := Signalled); }
      members[i] := m.(count := m.count + 1);
    }

    /** The dispatch loop of `ml_master_thread` and the cursor arithmetic behind it. */
    method DispatchNode()
      requires Inv(Abstract()) && master.Busy?
      modifies this, members
      ensures Abstract() == Apply(old(Abstract()), Dispatch) && Inv(Abstract())
      ensures dispatched == old(dispatched) + [old(master.node)]
      ensures var j := Dest(|old(dispatched)|, members.Length);
              j < members.Length && members[j].list == old(members[j].list) + [old(master.node)]
    {
      ghost var s := Abstract();
      StepKeepsInv(s, Dispatch);
      NextDest(|dispatched|, members.Length);
      var node, count := master.node, members.Length;
      var i, sent := cursor, false;
      while i < count && !sent
        invariant cursor <= i <= count && i == cursor
        invariant !sent ==> members[..] == s.members
        invariant sent ==> members[..] == s.members[cursor := Received(s.members[cursor], node)]
        modifies members
        decreases count - i, !sent
      {
        AddMemberNode(node, i);
        sent := true;
      }
      dispatched := dispatched + [node];
      master := Ready;
      if i + 1 == count || i == count { i := 0; }
      i := i + 1;
      cursor := i;
      if cursor == count { cursor := 0; }
    }

    /** `ml_get_thread_member_node`, up to the wait. */
    method GetMemberNode(j: nat)
      requires Inv(Abstract()) && j < members.Length && members[j].phase.Ready?
      modifies members
      ensures Abstract() == Apply(old(Abstract()), MemberLook(j)) && Inv(Abstract())
      ensures members[j].phase.Waiting? ||
              (members[j].phase.Busy? && old(members[j].list) == [members[j].phase.node] + members[j].list)
    {
      StepKeepsInv(Abstract(), MemberLook(j));
      if members[j].list == [] {
        members[j] := members[j].(phase := Waiting);
      } else {
        TakeMemberNode(j);
      }
    }

    /** `ml_get_thread_node` on a member's list, and `iCount--`. */
    method TakeMemberNode(j: nat)
      requires j < members.Length && members[j].list != []
      modifies members
      ensures members[..] == old(members[..])[j := Taken(old(members[j]))]
    {
      var m := members[j];
      var node := m.list[0];
      m := m.(list := m.list[1..], phase := Busy(node));
      members[j] := m.(count := m.count - 1);
    }

    method EndMemberWait(j: nat, timedOut: bool)
      requires Inv(Abstract()) && j < members.Length && (members[j].phase.Signalled? || members[j].phase.Waiting?)
      modifies members
      ensures Abstract() == Apply(old(Abstract()), if timedOut then MemberTimeout(j) else MemberWake(j))
      ensures Inv(Abstract())
      ensures if timedOut || old(members[j].list) == [] then members[j].phase.Ready?
              else members[j].phase.Busy? && old(members[j].list) == [members[j].phase.node] + members[j].list
    {
      StepKeepsInv(Abstract(), if timedOut then MemberTimeout(j) else MemberWake(j));
      if timedOut {
        members[j] := members[j].(phase := Ready);
      } else if members[j].list == [] {
        var m := members[j].(phase := Ready, idle := members[j].idle + 1);
        members[j] := m.(count := m.count - 1);
      } else {
        TakeMemberNode(j);
      }
    }

    /** `execute_func` in `ml_thread_handle_data`; what it returns changes nothing. */
    method ExecuteNode(j: nat) returns (node: T)
      requires Inv(Abstract()) && j < members.Length && members[j].phase.Busy?
      modifies members
      ensures Abstract() == Apply(old(Abstract()), Execute(j)) && Inv(Abstract())
      ensures members[j].executed == old(members[j].executed) + [node]
    {
      StepKeepsInv(Abstract(), Execute(j));
      var m := members[j];
      node := m.phase.node;
      members[j] := m.(phase := Ready, executed := m.executed + [node]);
    }
  }
}
