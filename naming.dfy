/**
 * Names derived from the service for the replacement instance: the DNS
 * label, host and Chef node names, the Chef role, the `Name` tag, and the key
 * of the reserved address.
 */
module Naming {
  import opened Text
  import opened Outcomes
  import opened Config

  /** The DNS label: the wiki is published as `docs`, every other service under its own name. */
  function ShortName(service: string): string
  {
    if service == "confluence" then "docs" else service
  }

  function Hostname(service: string): string
  {
    "stg" + ShortName(service) + ".example.com"
  }

  function NodeName(service: string): string
  {
    "aws" + ShortName(service) + ".example.com"
  }

  function RoleName(service: string): string
  {
    "Atlassian-" + Title(service) + "-Staging"
  }

  /** The value of the `Name` tag put on the new instance. */
  function TagName(service: string): string
  {
    service + " staging"
  }

  function EipKey(service: string): string
  {
    service + "_eip"
  }

  /** The public address bound to the new instance; `None` where the table has no entry for the service. */
  function EipAddress(service: string): Option<string>
  {
    if EipKey(service) in EIP then Some(EIP[EipKey(service)].ipAddress) else None
  }

  /** The values interpolated into the boot script, in order: hostname twice, node name, role. */
  function UserDataFields(service: string): (fields: seq<string>)
    ensures |fields| == 4 && fields[0] == fields[1]
  {
    [Hostname(service), Hostname(service), NodeName(service), RoleName(service)]
  }

  /** The short name is `docs` exactly for the wiki; for the other services it is the service itself. */
  lemma ShortNameRule(service: string)
    requires IsService(service)
    ensures ShortName(service) == "docs" <==> service == "confluence"
    ensures service != "confluence" ==> ShortName(service) == service
  {
  }

  /** Every allowed service has an entry in the reserved address table. */
  lemma EipDefined(service: string)
    requires IsService(service)
    ensures EipKey(service) in EIP && EipAddress(service).Some?
  {
    if service == "stash" {
      assert EipKey(service) == "stash_eip";
    } else if service == "confluence" {
      assert EipKey(service) == "confluence_eip";
    } else {
      assert service == "jira";
      assert EipKey(service) == "jira_eip";
    }
  }

  /** Title casing a lower-case word capitalises its first letter only. */
  lemma TitleOfLowerWord(w: string)
    requires w != [] && forall k :: 0 <= k < |w| ==> IsLower(w[k])
    ensures Title(w) == [ToUpper(w[0])] + w[1..]
  {
    var t := Title(w);
    var u := [ToUpper(w[0])] + w[1..];
    forall k | 0 <= k < |w| ensures t[k] == u[k] {
      if k > 0 {
        assert !StartsWord(w, k) && !IsUpper(w[k]);
        assert u[k] == w[k];
      }
    }
  }


  /** Two texts that agree outside one middle part agree in the middle too. */
  lemma AffixInjective(p: string, a: string, b: string, q: string)
    requires p + a + q == p + b + q
    ensures a == b
  {
    assert |a| == |b|;
    assert (p + a + q)[|p|..|p| + |a|] == a;
    assert (p + b + q)[|p|..|p| + |b|] == b;
  }

  /** Title casing keeps the length of the service name. */
  lemma RoleNameLength(service: string)
    ensures |RoleName(service)| == |service| + 18
  {
    TitleKeepsLetters(service);
  }

  /** Every allowed service name is a non-empty lower-case word. */
  lemma ServiceIsLowerWord(service: string)
    requires IsService(service)
    ensures service != [] && forall k :: 0 <= k < |service| ==> IsLower(service[k])
  {
  }

  /** The Chef role names the service with its first letter capitalised. */
  lemma RoleNameCapitalised(service: string)
    requires IsService(service)
    ensures RoleName(service) == "Atlassian-" + [ToUpper(service[0])] + service[1..] + "-Staging"
  {
    ServiceIsLowerWord(service);
    TitleOfLowerWord(service);
  }

  /** The Chef role of each service. */
  lemma RoleNameOf(service: string)
    requires IsService(service)
    ensures service == "stash" ==> RoleName(service) == "Atlassian-Stash-Staging"
    ensures service == "confluence" ==> RoleName(service) == "Atlassian-Confluence-Staging"
    ensures service == "jira" ==> RoleName(service) == "Atlassian-Jira-Staging"
  {
    RoleNameCapitalised(service);
  }

  lemma NamesOfStash()
    ensures Hostname("stash") == "stgstash.example.com"
    ensures NodeName("stash") == "awsstash.example.com"
    ensures TagName("stash") == "stash staging"
    ensures EipAddress("stash") == Some("192.0.2.1")
  {
    EipDefined("stash");
  }

  lemma NamesOfConfluence()
    ensures Hostname("confluence") == "stgdocs.example.com"
    ensures NodeName("confluence") == "awsdocs.example.com"
    ensures TagName("confluence") == "confluence staging"
    ensures EipAddress("confluence") == Some("192.0.2.2")
  {
    EipDefined("confluence");
  }

  lemma NamesOfJira()
    ensures Hostname("jira") == "stgjira.example.com"
    ensures NodeName("jira") == "awsjira.example.com"
    ensures TagName("jira") == "jira staging"
    ensures EipAddress("jira") == Some("192.0.2.3")
  {
    EipDefined("jira");
  }

  /** No two services share a hostname, a node name, a role or a reserved address. */
  lemma DerivedNamesDistinct(s1: string, s2: string)
    requires IsService(s1) && IsService(s2) && s1 != s2
    ensures Hostname(s1) != Hostname(s2)
    ensures NodeName(s1) != NodeName(s2)
    ensures RoleName(s1) != RoleName(s2)
    ensures EipAddress(s1) != EipAddress(s2)
  {
    assert ShortName(s1) != ShortName(s2);
    if Hostname(s1) == Hostname(s2) {
      AffixInjective("stg", ShortName(s1), ShortName(s2), ".example.com");
    }
    if NodeName(s1) == NodeName(s2) {
      AffixInjective("aws", ShortName(s1), ShortName(s2), ".example.com");
    }
    RoleNameLength(s1);
    RoleNameLength(s2);
    assert |s1| != |s2|;
    EipAddressOf(s1);
    EipAddressOf(s2);
  }

  /** The reserved address of each service. */
  lemma EipAddressOf(service: string)
    requires IsService(service)
    ensures service == "stash" ==> EipAddress(service) == Some("192.0.2.1")
    ensures service == "confluence" ==> EipAddress(service) == Some("192.0.2.2")
    ensures service == "jira" ==> EipAddress(service) == Some("192.0.2.3")
  {
    EipDefined(service);
  }

  /**
   * The tag put on a new instance is one the next run's instance search
   * matches for the same service, and for no other service.
   */
  lemma TagNameFoundOnlyByOwnService(s1: string, s2: string)
    requires IsService(s1) && IsService(s2)
    ensures Contains(TagName(s1), s2) <==> s1 == s2
  {
    ContainsInfix([], s1, " staging");
    assert [] + s1 + " staging" == TagName(s1);
    if s1 != s2 {
      // Each service name has a letter that no other service's tag holds.
      var c := if s2 == "stash" then 'h' else if s2 == "confluence" then 'c' else 'j';
      assert c in s2;
      assert c !in s1 && c !in " staging";
      assert c !in TagName(s1);
      if Contains(TagName(s1), s2) {
        ContainsKeepsLetters(TagName(s1), s2, c);
      }
    }
  }
}
