/** Messages (proto/model.py) and their validity check. */
module Model {
  import opened Wrappers
  import opened Text
  import Pattern

  datatype MessageType = PUB | SUB | GET | DEL | UNSUB | LWT {
    /** The wire number, which is also the sort order. */
    function Rank(): nat {
      match this
      case PUB => 0
      case SUB => 1
      case GET => 2
      case DEL => 3
      case UNSUB => 4
      case LWT => 5
    }
  }

  datatype PublishMode = SEND | RETAIN | PERSIST | APPEND {
    function Rank(): nat {
      match this
      case SEND => 0
      case RETAIN => 1
      case PERSIST => 2
      case APPEND => 3
    }
  }

  datatype Msg = Msg(
    typ: MessageType,
    topic: string,
    value: Option<string>,
    createdAt: Option<int>,
    updatedAt: Option<int>,
    mode: Option<PublishMode>)

  predicate EndsWith(s: string, suffix: string)
  {
    |suffix| <= |s| && s[|s| - |suffix|..] == suffix
  }

  /** Python's str.count for a needle of two characters: occurrences that do not overlap. */
  function CountPair(s: string, c: char, d: char): nat
  {
    if |s| < 2 then 0
    else if s[0] == c && s[1] == d then 1 + CountPair(s[2..], c, d)
    else CountPair(s[1..], c, d)
  }

  predicate IsValid(m: Msg)
  {
    && "/" <= m.topic
    && !EndsWith(m.topic, "/")
    && !HasPair(m.topic, '#', '/')
    && (if m.typ.PUB? || m.typ.LWT? then
          m.value.Some? && !HasPair(m.topic, '/', '#') && !HasPair(m.topic, '/', '+')
        else
          && (m.value.Some? ==> m.typ.DEL?)
          && CountPair(m.topic, '/', '#') <= 1
          && (CountPair(m.topic, '/', '#') == 1 ==> EndsWith(m.topic, "/#")))
    && (m.typ.PUB? ==> m.createdAt.Some? && m.updatedAt.Some? && m.mode.Some?)
  }

  /** The fields a message must carry for the broker to process it. */
  predicate Complete(m: Msg)
  {
    && (m.typ.PUB? || m.typ.LWT? ==> m.value.Some?)
    && (m.typ.PUB? ==> m.createdAt.Some? && m.updatedAt.Some? && m.mode.Some?)
  }

  lemma {:induction false} CountsPairAt(s: string, c: char, d: char, i: nat)
    requires c != d
    requires i < |s| - 1 && s[i] == c && s[i + 1] == d
    ensures CountPair(s, c, d) >= 1
  {
    if !(s[0] == c && s[1] == d) {
      CountsPairAt(s[1..], c, d, i - 1);
    }
  }

  lemma {:induction false} CountsTwoPairs(s: string, c: char, d: char, i: nat, j: nat)
    requires c != d
    requires i < j < |s| - 1 && s[i] == c && s[i + 1] == d && s[j] == c && s[j + 1] == d
    ensures CountPair(s, c, d) >= 2
  {
    if s[0] == c && s[1] == d {
      CountsPairAt(s[2..], c, d, j - 2);
    } else {
      CountsTwoPairs(s[1..], c, d, i - 1, j - 1);
    }
  }

  /** A needle that can only stand at the end is counted exactly when it stands there. */
  lemma {:induction false} CountPairOnlyLast(s: string, c: char, d: char)
    requires c != d && |s| >= 2
    requires forall i :: 0 <= i < |s| - 2 ==> !(s[i] == c && s[i + 1] == d)
    ensures CountPair(s, c, d) == if s[|s| - 2] == c && s[|s| - 1] == d then 1 else 0
  {
    if |s| > 2 {
      var u := s[1..];
      forall i | 0 <= i < |u| - 2 ensures !(u[i] == c && u[i + 1] == d) {
        assert !(s[i + 1] == c && s[i + 2] == d);
      }
      CountPairOnlyLast(u, c, d);
    }
  }

  /** The two counting tests on wildcards say exactly that a "/#" can only end the topic. */
  lemma HashTestsMeanLast(s: string)
    ensures (CountPair(s, '/', '#') <= 1 && (CountPair(s, '/', '#') == 1 ==> EndsWith(s, "/#")))
            <==> Pattern.HashLast(s)
  {
    var cnt := CountPair(s, '/', '#');
    assert EndsWith(s, "/#") <==> |s| >= 2 && s[|s| - 2] == '/' && s[|s| - 1] == '#';
    if Pattern.HashLast(s) && |s| >= 2 {
      CountPairOnlyLast(s, '/', '#');
    }
    if cnt <= 1 && (cnt == 1 ==> EndsWith(s, "/#")) {
      forall i | 0 <= i < |s| - 1 && s[i] == '/' && s[i + 1] == '#' ensures i + 2 == |s| {
        CountsPairAt(s, '/', '#', i);
        var last := |s| - 2;
        assert s[last..][0] == '/' && s[last..][1] == '#';
        if i != last {
          CountsTwoPairs(s, '/', '#', i, last);
        }
      }
    }
  }

  /** The wire numbers, by which types sort and modes are compared. */
  lemma WireNumbers(t: MessageType, mode: PublishMode)
    ensures t.Rank() == match t
                        case PUB => 0 case SUB => 1 case GET => 2 case DEL => 3 case UNSUB => 4 case LWT => 5
    ensures mode.Rank() == match mode case SEND => 0 case RETAIN => 1 case PERSIST => 2 case APPEND => 3
  {
  }

  /** The validity check, character by character: the topic starts and does not end with '/', no segment but the
      last ends in '#'; a PUB or LWT has a value and no segment that starts with a wildcard; of the others only a
      DEL may have a value, and "/#" can only end the topic; a PUB has its times and its mode. */
  lemma ValidExactly(m: Msg)
    ensures IsValid(m) <==>
            var t := m.topic;
            && t != "" && t[0] == '/' && t[|t| - 1] != '/'
            && (forall i :: 0 <= i < |t| - 1 && t[i] == '#' ==> t[i + 1] != '/')
            && (if m.typ == PUB || m.typ == LWT then
                  m.value.Some? && forall i :: 0 <= i < |t| - 1 && t[i] == '/' ==> t[i + 1] != '#' && t[i + 1] != '+'
                else
                  && (m.value.Some? ==> m.typ == DEL)
                  && forall i :: 0 <= i < |t| - 1 && t[i] == '/' && t[i + 1] == '#' ==> i == |t| - 2)
            && (m.typ == PUB ==> m.createdAt.Some? && m.updatedAt.Some? && m.mode.Some?)
    ensures IsValid(m) ==> Complete(m)
  {
    hide CountPair;
    var t := m.topic;
    HashTestsMeanLast(t);
    assert t != "" ==> (EndsWith(t, "/") <==> t[|t| - 1] == '/') by {
      assert t != "" ==> t[|t| - 1..] == [t[|t| - 1]];
    }
    assert "/" <= t <==> t != "" && t[0] == '/';
  }

  /** Every valid subscription, query or deletion over the plain alphabet carries a well-formed pattern. */
  lemma ValidPatternIsWellFormed(m: Msg)
    requires IsValid(m) && !m.typ.PUB? && !m.typ.LWT? && Pattern.Plain(m.topic)
    ensures Pattern.WellFormed(m.topic)
  {
    HashTestsMeanLast(m.topic);
  }
}
