/**
 * The dialogue corpus records and the topic-name translation table
 * (`crates/kumou-japanese/src/dialogue.rs`).  The `u32` and `usize` fields are
 * natural numbers: no arithmetic in the model comes near their bounds.
 */
module Dialogues {

  /** A single utterance in a dialogue. */
  datatype Utterance = Utterance(turnNum: nat, speaker: string, utterance: string)

  /** A complete dialogue between speakers. */
  datatype Dialogue = Dialogue(
    topicId: nat,
    topicName: string,
    dialogueId: nat,
    dialogueLength: nat,
    utterances: seq<Utterance>)

  /** Summary of one topic: its id, its name and how many dialogues it has. */
  datatype TopicSummary = TopicSummary(topicId: nat, topicName: string, dialogueCount: nat)

  /** One page of the dialogues of a topic. */
  datatype DialoguePage = DialoguePage(
    dialogues: seq<Dialogue>,
    total: nat,
    page: nat,
    perPage: nat,
    totalPages: nat)

  /** The English topic names the table translates. */
  const EnglishTopicNames: set<string> := {"Dailylife", "School", "Travel", "Health", "Entertainment"}

  /**
   * `topic_name_ja`: the five English topic names become their Japanese names;
   * any other name is returned as it is.  No result is one of the English keys.
   */
  function TopicNameJa(topicName: string): (r: string)
    ensures topicName == "Dailylife" ==> r == "日常生活"
    ensures topicName == "School" ==> r == "学校"
    ensures topicName == "Travel" ==> r == "旅行"
    ensures topicName == "Health" ==> r == "健康"
    ensures topicName == "Entertainment" ==> r == "エンターテインメント"
    ensures topicName !in EnglishTopicNames ==> r == topicName
    ensures r !in EnglishTopicNames
  {
    match topicName
    case "Dailylife" => "日常生活"
    case "School" => "学校"
    case "Travel" => "旅行"
    case "Health" => "健康"
    case "Entertainment" => "エンターテインメント"
    case _ => topicName
  }

  /** Translating twice is translating once. */
  lemma TopicNameJaIdempotent(topicName: string)
    ensures TopicNameJa(TopicNameJa(topicName)) == TopicNameJa(topicName)
  {
    var once := TopicNameJa(topicName);
    assert once !in EnglishTopicNames;
  }
}
