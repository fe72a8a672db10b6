/** The two entry points that tie the parser to the history:
    `InstagramContentGenerator.generate_content` and `PromptInterface.process_prompt`.
    The agent team that writes the post is an opaque service from topic to text,
    and the two clock readings are parameters. */
module Generator {
  import opened Parser
  import opened History

  /** The dictionary `generate_content` returns. */
  datatype Generated = Generated(topic: string, timestamp: string, content: string)

  /** The dictionary `process_prompt` returns. */
  datatype Processed = Processed(originalPrompt: string, parsedInstruction: Instruction, generatedContent: Generated)

  /** `generate_content`: ask the service for the post; when saving, append it to the history.
      `savedAt` and `returnedAt` are the two separate readings of the clock. */
  method GenerateContent(file: HistoryFile, service: string -> string, topic: string, saveToFile: bool,
                         savedAt: string, returnedAt: string)
    returns (result: Generated)
    requires file.Valid()
    modifies file
    ensures file.Valid()
    ensures result == Generated(topic, returnedAt, service(topic))
    ensures saveToFile ==> file.present
    ensures saveToFile ==>
      file.entries == (if old(file.present) then old(file.entries) else []) + [Entry(savedAt, topic, service(topic))]
    ensures !saveToFile ==> file.present == old(file.present) && file.entries == old(file.entries)
  {
    var response := service(topic);
    if saveToFile {
      file.SaveContentHistory(savedAt, topic, response);
    }
    result := Generated(topic, returnedAt, response);
  }

  /** `process_prompt`: parse the prompt, generate for the parsed topic, and save unless the prompt
      asked not to. The history grows by one entry for the parsed topic exactly when the save flag is set. */
  method ProcessPrompt(file: HistoryFile, service: string -> string, prompt: string,
                       savedAt: string, returnedAt: string)
    returns (result: Processed)
    requires file.Valid()
    modifies file
    ensures file.Valid()
    ensures result.originalPrompt == prompt
    ensures result.parsedInstruction == ParseInstruction(prompt)
    ensures result.generatedContent == Generated(Topic(prompt), returnedAt, service(Topic(prompt)))
    ensures result.parsedInstruction.saveFile ==> file.present
    ensures result.parsedInstruction.saveFile ==>
      file.entries == (if old(file.present) then old(file.entries) else []) + [Entry(savedAt, Topic(prompt), service(Topic(prompt)))]
    ensures !result.parsedInstruction.saveFile ==> file.present == old(file.present) && file.entries == old(file.entries)
  {
    var parsed := ParseInstruction(prompt);
    var generated := GenerateContent(file, service, parsed.topic, parsed.saveFile, savedAt, returnedAt);
    result := Processed(prompt, parsed, generated);
  }
}
