/** Device names: two parts around one dash, the node name and the building block. */
module DeviceNames {
  /** `strings.Split` at dashes. */
  function Split(name: string): (parts: seq<string>)
    ensures |parts| > 0
  {
    if name == "" then [""]
    else if name[|name| - 1] == '-' then Split(name[..|name| - 1]) + [""]
    else
      var parts := Split(name[..|name| - 1]);
      parts[..|parts| - 1] + [parts[|parts| - 1] + [name[|name| - 1]]]
  }

  function Join(parts: seq<string>): string
    requires |parts| > 0
  {
    if |parts| == 1 then parts[0] else Join(parts[..|parts| - 1]) + "-" + parts[|parts| - 1]
  }

  predicate DashFree(parts: seq<string>) { forall p | p in parts :: '-' !in p }

  lemma {:induction false} JoinSplit(name: string)
    ensures Join(Split(name)) == name && DashFree(Split(name))
  {
    if name != "" {
      var init, c := name[..|name| - 1], name[|name| - 1];
      assert name == init + [c];
      JoinSplit(init);
      var parts := Split(init);
      if c == '-' {
        assert Split(name)[..|parts|] == parts;
        assert init + "-" + "" == name;
      } else {
        JoinGrow(parts[..|parts| - 1], parts[|parts| - 1], c);
        assert parts == parts[..|parts| - 1] + [parts[|parts| - 1]];
      }
    }
  }

  lemma JoinGrow(front: seq<string>, last: string, c: char)
    ensures Join(front + [last + [c]]) == Join(front + [last]) + [c]
  {
    assert (front + [last + [c]])[..|front|] == front == (front + [last])[..|front|];
    if front != [] {
      assert Join(front) + "-" + (last + [c]) == Join(front) + "-" + last + [c];
    }
  }

  lemma {:induction false} SplitJoin(front: seq<string>, last: string)
    requires DashFree(front) && '-' !in last
    ensures Split(Join(front + [last])) == front + [last]
    decreases |front|, |last|
  {
    var parts := front + [last];
    assert parts[..|front|] == front;
    if last != "" {
      var init, c := last[..|last| - 1], last[|last| - 1];
      assert last == init + [c];
      SplitJoin(front, init);
      JoinGrow(front, init, c);
      var name := Join(front + [init]) + [c];
      assert name[..|name| - 1] == Join(front + [init]);
      assert (front + [init])[..|front|] == front;
    } else if front != [] {
      var name := Join(front) + "-" + last;
      assert name[..|name| - 1] == Join(front);
      assert front == front[..|front| - 1] + [front[|front| - 1]];
      SplitJoin(front[..|front| - 1], front[|front| - 1]);
    }
  }

  /** A name is accepted exactly when it is two dash-free parts around one dash, and these are then the parts. */
  lemma SplitTwo(name: string, node: string, bb: string)
    ensures Split(name) == [node, bb] <==> name == node + "-" + bb && '-' !in node && '-' !in bb
  {
    assert Join([node]) == node;
    assert [node, bb][..1] == [node];
    assert Join([node, bb]) == node + "-" + bb;
    if Split(name) == [node, bb] {
      JoinSplit(name);
      assert node in Split(name) && bb in Split(name);
    }
    if name == node + "-" + bb && '-' !in node && '-' !in bb {
      assert [node] + [bb] == [node, bb];
      SplitJoin([node], bb);
    }
  }
}
