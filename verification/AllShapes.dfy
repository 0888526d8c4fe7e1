/**
 All the shapes that Detokenize looks for have what TokenText asks of them
 (internal/tokenstore/generator.go, internal/redact/engine.go).
 */
module AllShapes {
  import opened Scanning
  import opened Restore
  import opened TokenShapes
  import opened ExactShapes
  import opened TokenTexts
  import opened StreamDetokenize

  lemma PhonesAreRigid()
    ensures AllRigid(PHONE_JWT) && AllRigid(BEARER_AWS)
  {}

  lemma MacsAreRigid()
    ensures AllRigid(MAC) && AllRigid(PAN_GIT)
  {}

  lemma SlackIsRigid()
    ensures AllRigid(SLACK) && AllRigid(STRIPE_NPM)
  {}

  lemma SendgridIsRigid()
    ensures AllRigid(CONN_SENDGRID) && AllRigid(OCEAN_FLARE)
  {}

  lemma AzureIsRigid()
    ensures AllRigid(AZURE) && AllRigid(ARTIFACTORY_CIRCLE)
  {}

  lemma TerraformIsRigid()
    ensures AllRigid(TERRAFORM) && AllRigid(SNYK)
  {}

  lemma BitbucketIsRigid()
    ensures AllRigid(BITBUCKET_VAULT) && AllRigid(OPENAI_ANTHROPIC)
  {}

  lemma RazorpayIsRigid()
    ensures AllRigid(RAZORPAY_SIGNED) && AllRigid(BLOCKED_HASH_HOST) && AllRigid(CPASSWORD)
  {}

  lemma GroupsAreRigid()
    ensures forall i | 0 <= i < |COMPACT_GROUPS| :: AllRigid(COMPACT_GROUPS[i])
  {
    hide AllRigid;
    PhonesAreRigid();
    MacsAreRigid();
    SlackIsRigid();
    SendgridIsRigid();
    AzureIsRigid();
    TerraformIsRigid();
    BitbucketIsRigid();
    RazorpayIsRigid();
  }

  /** Every credential shape takes a fixed number of bytes. */
  lemma CredentialsAreRigid()
    ensures AllRigid(Join(ALL_GROUPS))
  {
    hide Rigid, Join;
    GroupsAreRigid();
    SpacedAreRigid();
    forall alt | alt in Join(ALL_GROUPS)
      ensures Rigid(alt)
    {
      InJoin(ALL_GROUPS, alt);
      var i :| 0 <= i < |ALL_GROUPS| && alt in ALL_GROUPS[i];
      FromGroups(i);
    }
  }

  lemma RigidIsSteady(alt: Alt)
    requires Rigid(alt)
    ensures TakesSomething(alt) && Steady(alt.items)
  {}

  lemma DomainsAreSteady()
    ensures AllSteady([DOMAIN]) && AllSteady([EMAIL_LOCAL])
  {}

  lemma NetworksAreSteady()
    ensures AllSteady([IPV4]) && AllSteady([IPV6])
  {}

  lemma PhonesAreSteady()
    ensures AllSteady([INTL_PHONE])
  {}

  lemma StructuredAreSteady(l: Lookups)
    ensures PassesSteady(StructuredPasses(l)) && |StructuredPasses(l)| == 5
  {
    DomainsAreSteady();
    NetworksAreSteady();
    PhonesAreSteady();
    hide AllSteady, DomainRule, EmailRule, Ipv4Rule, IntlPhoneRule;
  }

  /** Which passes look for shapes of fixed size only: domains, addresses, credentials. */
  predicate OfFixedSize(n: nat) { n == 0 || n == 1 || n == 5 }

  lemma CredentialsAreSteady()
    ensures AllSteady(Join(ALL_GROUPS))
  {
    CredentialsAreRigid();
    hide Rigid, Join, Steady, TakesSomething;
    forall alt | alt in Join(ALL_GROUPS)
      ensures TakesSomething(alt) && Steady(alt.items)
    {
      RigidIsSteady(alt);
    }
  }

  lemma CredentialsAreProper(l: Lookups)
    ensures Proper(Pass(Join(ALL_GROUPS), PlainRule(l)))
  {
    CredentialsAreSteady();
    hide TakesSomething, Steady, Join;
  }

  /** The passes before the credentials. */
  lemma StructuredPass(l: Lookups, p: Pass)
    requires p in StructuredPasses(l)
    ensures p.alts == [DOMAIN] || p.alts == [EMAIL_LOCAL] || p.alts == [IPV4] || p.alts == [IPV6] || p.alts == [INTL_PHONE]
    ensures p.rule == DomainRule(l) || p.rule == EmailRule(l) || p.rule == Ipv4Rule(l) || p.rule == Rule(l.ipv6, NoEcho())
            || p.rule == IntlPhoneRule(l)
  {
    hide DomainRule, EmailRule, Ipv4Rule, IntlPhoneRule, NoEcho;
  }

  lemma FullParts(l: Lookups)
    ensures Full(l) == StructuredPasses(l) + [Pass(Join(ALL_GROUPS), PlainRule(l))]
    ensures |StructuredPasses(l)| == 5 && StructuredPasses(l)[0] == Pass([DOMAIN], DomainRule(l))
    ensures StructuredPasses(l)[1] == Pass([EMAIL_LOCAL], EmailRule(l))
  {
    hide Join, DomainRule, EmailRule, Ipv4Rule, IntlPhoneRule, PlainRule;
  }

  lemma FullIsSteady(l: Lookups)
    ensures PassesSteady(Full(l)) && |Full(l)| == 6
    ensures Full(l)[0] == Pass([DOMAIN], DomainRule(l)) && Full(l)[5] == Pass(Join(ALL_GROUPS), PlainRule(l))
    ensures forall n | 0 <= n < 6 && OfFixedSize(n) :: AllRigid(Full(l)[n].alts)
  {
    CredentialsAreRigid();
    CredentialsAreSteady();
    StructuredAreSteady(l);
    FullParts(l);
    TwoAreRigid();
    hide Rigid, Join, AllSteady, Full, StructuredPasses, PlainRule, DomainRule, EmailRule;
  }

  lemma TwoAreRigid()
    ensures Rigid(DOMAIN) && Rigid(EMAIL_LOCAL)
  {}
}
