/** `Config::load` as it runs: two loops that fill four maps and may stop halfway. */
module ConfigLoader {
  import opened Wire
  import opened Config

  /** What the file gives: nothing, a line without two tokens somewhere, or all its lines. */
  datatype Source = Unreadable | Malformed | Readable(lines: seq<Line>)

  class ConfigFile {
    const pton: Pton
    var nameToIp: map<string, uint32>
    var ipToName: map<uint32, string>
    var agentAcl: Acl
    var internetAcl: Acl

    ghost function View(): Tables
      reads this
    {
      Tables(nameToIp, ipToName, agentAcl, internetAcl)
    }

    constructor (pton: Pton)
      ensures View() == EMPTY && this.pton == pton
    {
      this.pton := pton;
      nameToIp, ipToName, agentAcl, internetAcl := map[], map[], map[], map[];
    }

    /** `load`. The maps are cleared only once the file is open. */
    method Load(source: Source) returns (ok: bool)
      modifies this
      ensures source.Unreadable? ==> !ok && View() == old(View())
      ensures source.Malformed? ==> !ok && View() == EMPTY
      ensures source.Readable? ==> (ok, View()) == LoadLines(pton, source.lines)
      ensures Coherent(old(View())) ==> Coherent(View())
    {
      if source.Unreadable? {
        return false;
      }
      nameToIp, ipToName, agentAcl, internetAcl := map[], map[], map[], map[];
      if source.Malformed? {
        return false;
      }
      LoadIsCoherent(pton, source.lines);
      ok := AssignLoop(source.lines);
      if ok {
        ok := RuleLoop(source.lines);
      }
    }

    /** The first pass. */
    method AssignLoop(lines: seq<Line>) returns (ok: bool)
      modifies this`nameToIp, this`ipToName
      ensures (ok, View()) == AssignAll(pton, old(View()), lines)
    {
      var i: nat := 0;
      while i < |lines|
        invariant i <= |lines|
        invariant AssignAll(pton, View(), lines[i..]) == AssignAll(pton, old(View()), lines)
      {
        var l := lines[i];
        assert lines[i..][1..] == lines[i + 1..];
        i := i + 1;
        if !IsIpv4(pton, l.second) {
          continue;
        }
        var ipv4 := ParseIpv4(pton, l.second);
        if ipv4 == 0 {
          return false;
        }
        if ipv4 in ipToName {
          return false;
        }
        if l.first in nameToIp {
          return false;
        }
        nameToIp := nameToIp[l.first := ipv4];
        ipToName := ipToName[ipv4 := l.first];
      }
      return true;
    }

    /** The second pass. */
    method RuleLoop(lines: seq<Line>) returns (ok: bool)
      modifies this`agentAcl, this`internetAcl
      ensures (ok, View()) == RuleAll(pton, old(View()), lines)
    {
      var i: nat := 0;
      while i < |lines|
        invariant i <= |lines|
        invariant RuleAll(pton, View(), lines[i..]) == RuleAll(pton, old(View()), lines)
      {
        var l := lines[i];
        assert lines[i..][1..] == lines[i + 1..];
        i := i + 1;
        if IsIpv4(pton, l.second) {
          continue;
        }
        if l.first !in nameToIp {
          return false;
        }
        var src := nameToIp[l.first];
        if IsInternetRule(l) {
          var inetIp := InternetIp(pton, l);
          if inetIp == 0 {
            return false;
          }
          internetAcl := Insert(internetAcl, src, inetIp);
        } else {
          if l.second !in nameToIp {
            return false;
          }
          var dst := nameToIp[l.second];
          agentAcl := Insert(agentAcl, src, dst);
          agentAcl := Insert(agentAcl, dst, src);
        }
      }
      return true;
    }
  }
}
