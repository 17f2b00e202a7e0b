/**
 * Participant records of the pairing bot: a recurser, its per-user
 * configuration, the defaults a new recurser starts with, and the check
 * that a recurser has filled in every setting the bot needs.
 */
module Config {

  /** The settings a recurser chooses on the configuration form. */
  datatype UserConfig = UserConfig(
    comments: string,
    environment: string,
    experience: string,
    questionList: string,
    topics: seq<string>,
    soloDays: seq<string>,
    soloDifficulty: seq<string>,
    pairingDifficulty: seq<string>,
    manualQuestion: bool)

  /** One participant as stored in the profile store. */
  datatype Recurser = Recurser(
    id: string,
    name: string,
    email: string,
    isSkippingTomorrow: bool,
    isPairingTomorrow: bool,
    config: UserConfig)

  /** The configuration every new recurser starts with. */
  function DefaultUserConfig(): (c: UserConfig)
    ensures c.topics == []
    ensures c.experience == "medium"
    ensures c.pairingDifficulty == ["easy", "medium"]
  {
    UserConfig(
      comments := "N/A",
      environment := "leetcode",
      experience := "medium",
      questionList := "topInterviewQuestions",
      topics := [],
      soloDays := ["mon", "tue", "wed", "thu", "fri"],
      soloDifficulty := ["easy", "medium"],
      pairingDifficulty := ["easy", "medium"],
      manualQuestion := false)
  }

  /** True when every setting the bot needs has been filled in. */
  predicate IsConfigured(r: Recurser) {
    && |r.config.environment| > 0
    && |r.config.experience| > 0
    && |r.config.questionList| > 0
    && |r.config.topics| > 0
    && |r.config.soloDifficulty| > 0
    && |r.config.pairingDifficulty| > 0
  }

  /**
   * A freshly registered recurser: identity as given, not skipping, not
   * pairing, default configuration. Since the default has no topics, such a
   * recurser is never configured.
   */
  function NewRecurser(id: string, name: string, email: string): (r: Recurser)
    ensures r.id == id && r.name == name && r.email == email
    ensures !r.isSkippingTomorrow && !r.isPairingTomorrow
    ensures r.config == DefaultUserConfig()
    ensures !IsConfigured(r)
  {
    Recurser(id, name, email, false, false, DefaultUserConfig())
  }

  /**
   * Every default setting the check reads is filled in except the topics:
   * a recurser on the default configuration with some topic list is
   * configured exactly when that list is non-empty.
   */
  lemma DefaultLacksOnlyTopics(r: Recurser, t: seq<string>)
    requires r.config == DefaultUserConfig().(topics := t)
    ensures IsConfigured(r) <==> t != []
  {
  }

  /**
   * Whether a recurser is configured depends only on the six required
   * settings: not on comments, solo days, the manual-question flag, or any
   * field of the recurser outside its configuration.
   */
  lemma IsConfiguredIgnoresOtherFields(r: Recurser, s: Recurser)
    requires r.config.environment == s.config.environment
    requires r.config.experience == s.config.experience
    requires r.config.questionList == s.config.questionList
    requires r.config.topics == s.config.topics
    requires r.config.soloDifficulty == s.config.soloDifficulty
    requires r.config.pairingDifficulty == s.config.pairingDifficulty
    ensures IsConfigured(r) == IsConfigured(s)
  {
  }
}
